# navigate configuration engine, modelled in Dafny

`navigate` is a terminal directory-stack and bookmark tool. This project
models its configuration engine:

- the flat `key = value` reader of the configuration library;
- the code that the `#[derive(ConfigParser)]` macro generates: binding
  settings to struct fields, `default()` and `to_ansi_sequences()`;
- the earlier version of the derive macro and its reader;
- the style-descriptor compiler, which turns text such as
  `"bold, red"` into ANSI SGR escape sequences, together with the
  application's older copy of the sequence builders;
- the application's settings defaults;
- the stand-alone key/value configuration store;
- the `to_rooted` path normaliser.

Each Dafny module follows one source file or one generated function:

| module | models |
|---|---|
| `Results` | `Option` and `Result` |
| `Text` | the `str` operations the code relies on: Unicode `trim`, `split` on a set of characters, `lines`, ASCII `to_lowercase`, `replace` with the empty string, UTF-8 byte length and byte slicing |
| `Numbers` | `str::parse::<u8>` and `u8::from_str_radix`, and decimal formatting of numbers |
| `Sgr` | reading back the parameters of an SGR sequence `ESC [ p1;...;pn m` |
| `StyleFormat` | `config-parser-common/src/format.rs`: code tables, sequence builders, `parse_style` and its helpers |
| `LegacyFormat` | the application's `src/format.rs`: its own copy of the code tables, `apply_format` and `make_padding_string`, and sequence builders that take a list of styles and have no special case for colours below 16 |
| `FlatParser` | `parse_config_file` of the configuration library |
| `Binder` | `gen_config_assignments`, `gen_parse_from_map` and `gen_parse_from_string`, as functions over a schema (a sequence of fields with attributes and types) |
| `BinderMessages` | the text of the diagnostics: `Debug` escaping, the `{:#?}` list, and the lines joined by a newline |
| `BinderDefaults` | `gen_default` |
| `AnsiConversion` | `gen_to_ansi_sequences`, parameterised by the style compiler |
| `LegacyConfigParser` | the earlier derive macro (`config_parser/src`) with its own reader |
| `SettingsDefaults` | `Settings` and `set_default_settings` in `src/config.rs` |
| `KeyValueStore` | `src/test_config.rs`: the `DEFAULT_SETTINGS` table, `parse_config` and `write_config` |
| `Paths` | `to_rooted` in `src/util.rs` over Unix paths |

## How the model reads the code

- **A schema instead of generated code.** The macros emit Rust code for
  each struct. The model takes the struct as data instead:
  - fields are named;
  - each field carries its attributes in order;
  - a field's type is a scalar (`String`, `bool`, an unsigned integer
    with its maximum) or a nested struct.
- **One field binding.** Binding a field follows the generated `match`
  exactly:
  - A field that is not skipped has its key removed from the map.
  - A `nested_config` field binds the nested table. Any failure there
    is reported with the nested text unchanged, without a prefix.
  - A setting that fails to parse keeps its old value and adds a
    diagnostic.
- **Diagnostics.**
  - The binder's diagnostics are a datatype.
  - `BinderMessages` renders each one with the source's exact wording.
  - The leftover keys of a table stay a set. Rendering takes the
    `HashMap` iteration order as a parameter, because Rust leaves that
    order unspecified.
- **Behaviour of the code a reader may not expect:**
  - A setting line is split at every `=`. Empty pieces are dropped, and
    the line counts only when exactly two pieces remain. So `a==b` sets
    `a` and `a=b=c` is ignored.
  - A nested table's failure text is pushed without a prefix naming the
    table.
  - Section headers are read and then ignored. There is no inline-comment
    stripping and no hierarchical table reader. The library's `lib.rs`
    re-exports `remove_inline_comment` and `ConfigElement`, but the
    library's `common.rs` does not define them.
  - In the earlier macro, a value that fails to parse leaves its key in
    the map. The call then fails with "not recognised" for that key.
- **Key order.** Where the code iterates over a `HashMap`, the order is
  a parameter. For the leftover listing it is a function `order` from a
  key set to a sequence, and the lemmas about the listing require that
  it lists every key of the set exactly once (`Text.ListsKeys`). For
  `write_config` it is a sequence of the map's keys, required to list
  each key exactly once (`KeyValueStore.IteratesKeys`, which
  `KeyValueStore.IteratesKeysEnumerates` shows is `Text.Enumerates` of
  the key set). Any iteration order does both.

## Model

| member | source | states |
|---|---|---|
| StyleFormat.ApplyFormat | config-parser/config-parser-common/src/format.rs:107-110 | the result is the style, then the input unchanged, then exactly the reset sequence |
| StyleFormat.GenerateStyleSequence | config-parser/config-parser-common/src/format.rs:112-142 | when at least one part is given, reading the SGR parameters back yields exactly the given style, foreground and background codes, in that order |
| StyleFormat.Generate256ColorSequence | config-parser/config-parser-common/src/format.rs:144-160 | the result is empty exactly for colours below 16; otherwise its parameters read back as the context's extended code, `5`, and the colour written as canonical decimal text (`Decimal`: digits only, no leading zero), which parses back to the colour |
| StyleFormat.GenerateRgbSequence | config-parser/config-parser-common/src/format.rs:162-180 | the parameters read back as the context's extended code, `2`, and red, green and blue, each written as canonical decimal text that parses back to the channel |
| StyleFormat.MakePaddingString | config-parser/config-parser-common/src/format.rs:182-186 | the padding has the requested length and consists of spaces only |
| StyleFormat.Tokens | config-parser/config-parser-common/src/format.rs:196-198 | every token is non-empty, contains no separator (space, comma or quote) and is already lower case |
| StyleFormat.TokensOfWord | config-parser/config-parser-common/src/format.rs:196-198 | a trimmed, non-empty word without separators is the single token that is the word lower-cased |
| StyleFormat.TokensConcat | config-parser/config-parser-common/src/format.rs:196-198 | the tokens of `a`, a separator and `b` are the tokens of `a` followed by the tokens of `b` |
| StyleFormat.TokensIgnoreCase | config-parser/config-parser-common/src/format.rs:197 | lower-casing a descriptor first does not change its tokens, so keyword and hexadecimal matching ignore ASCII case |
| StyleFormat.ParseNumberedColor | config-parser/config-parser-common/src/format.rs:249-258 | succeeds exactly when the token parses as a `u8`, and then gives the foreground 256-colour sequence of that number |
| StyleFormat.ParseRgbColorAsWritten | config-parser/config-parser-common/src/format.rs:260-298 | the code as written, including its panic when a byte slice splits a character; a sequence comes only from a token starting with `#` that is 7 bytes long |
| StyleFormat.ParseRgbColor | config-parser/config-parser-common/src/format.rs:260-298 | the corrected parser succeeds only on a `#` token of 7 bytes; it fails with "failed to parse rgb color" on every other `#` token of 7 bytes, and with "no rgb color" otherwise |
| StyleFormat.ParseRgbColorIsHexColor | config-parser/config-parser-common/src/format.rs:260-298 | the corrected parser succeeds exactly on `#` followed by three two-character channels that `from_str_radix(.., 16)` accepts, and then gives the foreground RGB sequence of those channels |
| StyleFormat.RgbCorrectionAgrees | config-parser/config-parser-common/src/format.rs:260-298 | wherever the code as written does not panic, the corrected parser gives the same sequence or the same error message |
| StyleFormat.SlicePanicNeedsNonAscii | config-parser/config-parser-common/src/format.rs:262-263 | the slice panic can only happen on a token with a non-ASCII character |
| StyleFormat.RgbSliceSplitsCharacter | config-parser/config-parser-common/src/format.rs:262-263 | `#aé123` passes the 7-byte guard and then panics at the first channel slice; the corrected parser returns the rgb error |
| StyleFormat.Classify | config-parser/config-parser-common/src/format.rs:201-236 | a token that parses as a `u8` is the foreground 256-colour sequence of that number; otherwise a hexadecimal colour is the foreground RGB sequence of its channels; otherwise the keyword classes decide |
| StyleFormat.KeywordClass | config-parser/config-parser-common/src/format.rs:215-235 | a token is a style exactly when it is a style keyword and a colour exactly when it is a colour name and no style keyword; each gives the one-code SGR sequence of its table entry |
| StyleFormat.ClassifyAsWrittenAgrees | config-parser/config-parser-common/src/format.rs:201-236 | classifying with `parse_rgb_color` as written panics exactly where the slices split a character, and otherwise agrees with `Classify`; a token that panics is one `Classify` does not recognise |
| StyleFormat.FirstUnrecognised | config-parser/config-parser-common/src/format.rs:201-238 | the position of the first token that is neither a colour nor a style: every earlier token is recognised, and the token there is not |
| StyleFormat.CollectTokensStopsAtUnknown | config-parser/config-parser-common/src/format.rs:201-238 | the token loop fails with the "could not parse style token" message that names the first unrecognised token |
| StyleFormat.CollectTokensKeepsOrder | config-parser/config-parser-common/src/format.rs:201-238 | when every token is recognised, the loop appends the style sequences and the colour sequences, each in token order |
| StyleFormat.CollectAsWrittenAgrees | config-parser/config-parser-common/src/format.rs:201-238 | the loop over `parse_rgb_color` as written panics exactly when the first unrecognised token is one whose slices split a character, and otherwise ends as the corrected loop does |
| StyleFormat.ParseStyle | config-parser/config-parser-common/src/format.rs:192-247 | the corrected `parse_style`: a descriptor without tokens is the empty style; success means every token is recognised and at most one is a colour; a failure is either the "too many colors" error or comes from an unrecognised token |
| StyleFormat.ParseStyleMeaning | config-parser/config-parser-common/src/format.rs:192-247 | for the corrected `parse_style`: an unknown token fails naming the first such token; otherwise more than one colour fails naming the whole descriptor; otherwise the result is all style sequences in token order followed by the single colour |
| StyleFormat.ParseStyleAsWrittenAgrees | config-parser/config-parser-common/src/format.rs:192-247 | `parse_style` as written panics exactly when the first unrecognised token is a `#` token whose channel slices split a character, and otherwise returns what the corrected `ParseStyle` returns |
| StyleExamples.SplitCharacterDescriptor | config-parser/config-parser-common/src/format.rs:262-263 | the descriptor `#aé123` makes `parse_style` as written panic, and the corrected one fail naming the token |
| LegacyFormat.GenerateStyleSequence | src/format.rs:115-148 | when the argument list is non-empty, the parameters read back are the listed styles, then the foreground, then the background |
| LegacyFormat.StyleSequenceAgrees | src/format.rs:115-148 | with a one-element style list, the older builder gives the same text as the library's builder |
| LegacyFormat.Generate256ColorSequence | src/format.rs:150-163 | always gives a sequence whose parameters read back as the extended code, `5` and the colour as canonical decimal text; it agrees with the library for colours from 16 up and differs below 16, where the library gives the empty string |
| LegacyFormat.GenerateRgbSequence | src/format.rs:165-183 | the older RGB builder gives the same text as the library's |
| LegacyFormat.ApplyFormat | src/format.rs:110-113 | the result is the style, then the input unchanged, then exactly the application's reset sequence; it is the text the library's `apply_format` gives |
| LegacyFormat.MakePaddingString | src/format.rs:185-189 | the padding has the requested length and consists of spaces only; it is the library's padding |
| LegacyFormat.BackgroundIsForegroundPlusTen | src/format.rs:34-59 | in the application's own colour table, every named colour's background code is its foreground code plus ten |
| LegacyFormat.ResetCodes | src/format.rs:11-32 | in the application's own style table, each style's reset code is `2` followed by its set code, except that bold resets with dim's code `22` |
| LegacyFormat.StyleNamesCorrespond | src/format.rs:11-32 | the application's style names (`underline`, `blink`, `reverse`, ...) correspond one to one with the library's |
| LegacyFormat.StyleCodesAgree | src/format.rs:11-32 | each style's set and reset codes in the application's table equal those of the corresponding library style |
| LegacyFormat.ColorCodesAgree | src/format.rs:34-59 | each colour's foreground and background code in the application's table equals the library's |
| Sgr.ParametersOfBuilt | config-parser/config-parser-common/src/format.rs:139-141 | joining parameters that contain no `;` with `;` between the introducer and `m` can be read back into exactly those parameters |
| Numbers.ParseUnsigned | config-parser/config-parser-common/src/format.rs:251 | a text parses exactly when, after one optional leading `+`, it is a non-empty run of digits of the radix whose value is at most the maximum; the result is that value, and a parsed text never starts with `-` |
| Numbers.ParseByteDecimal | src/format.rs:161 | printing a `u8` in decimal and parsing it back gives the same number |
| Numbers.ParseByteAccepts | config-parser/config-parser-common/src/format.rs:251 | `u8` parsing accepts a leading `+` and leading zeros: `+5` is 5, `007` is 7, `255` is 255 |
| Numbers.ParseByteRefuses | config-parser/config-parser-common/src/format.rs:251 | `256` overflows, and `+` alone or `-0` are refused |
| Numbers.ParsedIsAscii | config-parser/config-parser-common/src/format.rs:263 | any text that parses as a number is all ASCII, so byte and character positions agree on it |
| Numbers.Decimal | src/format.rs:161 | the decimal text is non-empty, all digits, and has no leading zero |
| Numbers.CanonicalDecimalUnique | src/format.rs:161 | a canonical decimal text (digits, no leading zero) of the number `n` is `Decimal(n)`, so the decimal text of a number is unique |
| Numbers.DecimalIsCanonical | src/format.rs:161 | `Decimal(n)` reads back as `n`, and every canonical decimal text that reads as `n` is `Decimal(n)` |
| FlatParser.Pieces | config-parser/config-parser-common/src/common.rs:23-24 | the kept pieces of a line are non-empty, trimmed and free of `=` |
| FlatParser.PiecesNoEquals | config-parser/config-parser-common/src/common.rs:23-24 | a stretch without `=` is one piece, trimmed, or none when it trims to nothing |
| FlatParser.PiecesConcat | config-parser/config-parser-common/src/common.rs:23-24 | the pieces of `a=b` are the pieces of `a` followed by the pieces of `b` |
| FlatParser.LineEntry | config-parser/config-parser-common/src/common.rs:8-29 | a line is blank exactly when it trims to nothing and a section header exactly when it then starts with `[`; otherwise it is a setting exactly when its trimmed text has two pieces, and then the key is the first piece and the value the second |
| FlatParser.Unquote | config-parser/config-parser-common/src/common.rs:31 | removing quotes keeps the key; a character is in the new value exactly when it is in the old value and is not a quote; non-settings are unchanged |
| FlatParser.CollectMeaning | config-parser/config-parser-common/src/common.rs:7-36 | the table holds exactly the keys some line assigns, each with the value from its last assignment |
| FlatParser.ParseConfigFile | config-parser/config-parser-common/src/common.rs:3-38 | the reader always succeeds; every key is non-empty, trimmed and free of `=`; every value is free of quotes and `=` |
| FlatParser.SettingLineEntry | config-parser/config-parser-common/src/common.rs:23-33 | a line `k=v` with plain trimmed parts is read as the setting `k` = `v` |
| FlatParser.DoubledEqualsEntry | config-parser/config-parser-common/src/common.rs:23-24 | `k==v` is also read as `k` = `v`, because the empty middle piece is dropped |
| FlatParser.ThreePiecesEntry | config-parser/config-parser-common/src/common.rs:26-29 | `a=b=c` has three pieces and is ignored |
| FlatParser.IgnoredLine | config-parser/config-parser-common/src/common.rs:10-29 | a blank, section or malformed line has no effect on the table |
| FlatParser.ParseRenderedMap | config-parser/config-parser-common/src/common.rs:3-38 | writing a table of plain settings as `k=v` lines, in any order, and reading the text back gives the same table |
| FlatParser.DoubledEqualsExample | config-parser/config-parser-common/src/common.rs:24 | `a==b` is read as the setting `a` = `b` |
| FlatParser.SpacedSettingEntry | config-parser/config-parser-common/src/common.rs:8-33 | whitespace around the `=` of a setting line is trimmed away: `k = v` reads as the setting `k` = `v` |
| FlatParser.SpacedExample | config-parser/config-parser-common/src/common.rs:8-33 | `a = b` is read as the setting `a` = `b` |
| FlatParser.ThreePiecesExample | config-parser/config-parser-common/src/common.rs:26-29 | `a=b=c` is ignored |
| Binder.ParseScalar | config-parser/config-parser-macro/src/generator_functions.rs:176-184 | a parsed value has the field's type; a `String` always parses to itself; a `bool` parses exactly from `true` or `false`; an unsigned value parses exactly when, after one optional `+`, it is a non-empty run of decimal digits not above the type's maximum, and the result is that number |
| Binder.BindField | config-parser/config-parser-macro/src/generator_functions.rs:147-194 | a skipped field changes nothing; a setting binds exactly when its entry is a setting that parses, taking the parsed value; otherwise it keeps its value with exactly one diagnostic: "could not find" when the key is missing, "is a setting element, but … nested" for a table, "failed to parse" for text that does not parse; a `nested_config` field keeps its value with "no table" when the key is missing and "defined as a nested element, but … setting" for a setting; with a table entry its struct value stays a struct of the same size |
| Binder.NestedFieldMeaning | config-parser/config-parser-macro/src/generator_functions.rs:151-163 | a `nested_config` field with a table entry: each nested field gets the value it gets when bound on its own against that table; the field adds no message exactly when every nested field binds cleanly and every key of the table belongs to a bound nested field, and otherwise adds one message carrying the nested diagnostics in field order, then the nested leftover keys |
| Binder.BindFieldsConfig | config-parser/config-parser-macro/src/generator_functions.rs:136-197 | after the assignments the map holds exactly the keys that no non-skipped field names |
| Binder.BindFieldsValues | config-parser/config-parser-macro/src/generator_functions.rs:173-194 | each field ends with the value of its own binding, which depends only on its key's entry in the original map |
| Binder.BindFieldsOutput | config-parser/config-parser-macro/src/generator_functions.rs:147-194 | the diagnostics are those of each field in field order, appended after the earlier ones |
| Binder.RunMeaning | config-parser/config-parser-macro/src/generator_functions.rs:33-47 | the leftover map is the input minus the bound names; the diagnostics are the field diagnostics, followed by one "not recognised" diagnostic exactly when keys are left over |
| Binder.ParseFromMapSucceeds | config-parser/config-parser-macro/src/generator_functions.rs:39-46 | `parse_from_map` reports nothing exactly when every field binds cleanly and every key of the table belongs to a bound field |
| Binder.SkippedFieldReported | config-parser/config-parser-macro/src/generator_functions.rs:164-166 | a `no_config` field keeps its value even when the table names it, and the key is reported in the final "not recognised" diagnostic |
| Binder.EmptyTable | config-parser/config-parser-macro/src/generator_functions.rs:189-192 | on an empty table every value stays as it was, and each bound field is reported missing, in field order |
| Binder.ParseFromStringIsParseFromMap | config-parser/config-parser-macro/src/generator_functions.rs:12-22 | `parse_from_string` binds like `parse_from_map`, with the reader's own messages placed before the binding diagnostics |
| Binder.RunTyped | config-parser/config-parser-macro/src/generator_functions.rs:173-194 | on a well-formed schema, binding keeps every field's value within its declared type |
| BinderMessages.Escape | config-parser/config-parser-macro/src/generator_functions.rs:18 | the escaped text of a key has no line break, so each key stays on one line of the list |
| BinderMessages.UnescapeEscape | config-parser/config-parser-macro/src/generator_functions.rs:18 | `Debug` escaping can be undone, so distinct keys print differently |
| BinderMessages.ReadPrettyList | config-parser/config-parser-macro/src/generator_functions.rs:41 | the `{:#?}` listing of a non-empty key list can be read back into exactly that list |
| BinderMessages.Status | config-parser/config-parser-macro/src/generator_functions.rs:43-46 | the call succeeds exactly when there are no diagnostics, and otherwise fails with their messages joined by line breaks |
| BinderMessages.ParseFromMapOk | config-parser/config-parser-macro/src/generator_functions.rs:39-46 | the rendered result is `Ok` exactly when every field binds cleanly and no key is left over |
| BinderMessages.LeftoverMessageLast | config-parser/config-parser-macro/src/generator_functions.rs:39-44 | when keys are left over, the error text ends with "the following settings were not recognised: " and a `{:#?}` listing that reads back as each leftover key exactly once |
| BinderMessages.ListingReadsBack | config-parser/config-parser-macro/src/generator_functions.rs:41 | the `{:#?}` listing of a non-empty key set, in any iteration order, reads back as each key of the set exactly once |
| BinderDefaults.Sources | config-parser/config-parser-macro/src/generator_functions.rs:98-124 | only `nested_config` markers and `default_value(..)` lists yield initialisers |
| BinderDefaults.FieldDefault | config-parser/config-parser-macro/src/generator_functions.rs:105-120 | a field's default has the field's declared type |
| BinderDefaults.Defaults | config-parser/config-parser-macro/src/generator_functions.rs:126-133 | `default()` gives one value per field, each of that field's type |
| BinderDefaults.DefaultIsLiteral | config-parser/config-parser-macro/src/generator_functions.rs:116-120 | a field with `default_value(lit)` starts as `lit` |
| BinderDefaults.DefaultIsNested | config-parser/config-parser-macro/src/generator_functions.rs:105-109 | a `nested_config` field starts with its struct's own defaults |
| BinderDefaults.DefaultsOnEmptyTable | config-parser/config-parser-macro/src/generator_functions.rs:88-134 | binding an empty table onto the defaults keeps them all, and reports every bound field missing |
| AnsiConversion.ConvertFieldsMeaning | config-parser/config-parser-macro/src/generator_functions.rs:51-86 | the fields are converted in order up to the first failure, which ends the call with that failure; later fields keep their values |
| AnsiConversion.ConvertAttrs | config-parser/config-parser-macro/src/generator_functions.rs:60-78 | a field without `style_config` or `nested_config` statements is unchanged and cannot fail; a string stays a string and a struct stays a struct; a scalar that is not a string is unchanged and cannot fail; a failure of a string field keeps the text and reports "failed to convert" naming it |
| AnsiConversion.NestedField | config-parser/config-parser-macro/src/generator_functions.rs:70-73 | a struct field with one `nested_config` marker holds its struct's conversion: the nested fields up to the first failing one are converted, the later ones keep their values, and the failure is that field's |
| AnsiConversion.ToAnsiSequences | config-parser/config-parser-macro/src/generator_functions.rs:51-86 | `to_ansi_sequences` keeps one value per field, and a struct without conversion statements is unchanged and succeeds |
| AnsiConversion.ToAnsiSequencesOk | config-parser/config-parser-macro/src/generator_functions.rs:60-83 | `to_ansi_sequences` succeeds exactly when every field converts, and then each field holds its converted value |
| AnsiConversion.StyleField | config-parser/config-parser-macro/src/generator_functions.rs:63-69 | a `style_config` field becomes its compiled sequence, or keeps its text and fails with "failed to convert" naming that text |
| AnsiConversion.InertField | config-parser/config-parser-macro/src/generator_functions.rs:60-78 | a field without `style_config` or `nested_config` is left unchanged and cannot fail |
| AnsiConversion.ConvertFieldsTyped | config-parser/config-parser-macro/src/generator_functions.rs:64-68 | conversion keeps every field's value within its declared type |
| LegacyConfigParser.ReadersAgree | config_parser/src/lib.rs:58-89 | the earlier reader builds the same table as the library's reader, except that quotes stay in its values |
| LegacyConfigParser.ParseFromMap | config_parser/src/lib.rs:50-56 | the assignments only remove keys from the shared map and never change the value of a key that remains |
| LegacyConfigParser.AssignSubMap | config_parser/src/common.rs:34-47 | the generated assignments only ever remove keys |
| LegacyConfigParser.AssignField | config_parser/src/common.rs:19-47 | a `no_config` field changes nothing; a setting whose key is present and parses takes the parsed value and its key is removed, and otherwise nothing changes; a `nested_config` struct field stays a struct of the same size |
| LegacyConfigParser.NestedFlatField | config_parser/src/common.rs:22-26 | a `nested_config` field whose struct has no nested fields reads the outer struct's map: each nested setting takes its parsed value exactly when that map holds a value for its name that parses, and the map loses exactly those keys |
| LegacyConfigParser.AssignTyped | config_parser/src/common.rs:34-47 | the assignments keep every field's value within its declared type |
| LegacyConfigParser.AssignFlat | config_parser/src/common.rs:8-50 | on a schema without nested fields, exactly the keys whose values parse are removed, and each such field takes the parsed value; every other field is unchanged |
| LegacyConfigParser.ParseFromString | config_parser/src/lib.rs:35-45 | the call succeeds exactly when the map ends empty, and otherwise fails with "not recognised" listing the remaining keys |
| LegacyConfigParser.ParseFromStringFlat | config_parser/src/lib.rs:35-45 | on a flat schema the leftovers are the keys that did not parse or name no field, and the call succeeds exactly when there are none |
| LegacyConfigParser.UnparsedIsLeftover | config_parser/src/common.rs:41-43 | a setting whose value does not parse keeps its value and its key, so the call fails |
| LegacyConfigParser.WriteDefaultConfig | config_parser/src/lib.rs:92-94 | the stub writes nothing and always reports success |
| SettingsDefaults.SetDefaultSettings | src/config.rs:133-166 | the call always succeeds; afterwards every text setting is non-empty, while `general` and `align_separators` are untouched |
| SettingsDefaults.FilledIsFixpoint | src/config.rs:139-163 | settings that are all filled are left exactly as they are |
| SettingsDefaults.Idempotent | src/config.rs:133-166 | applying the defaults twice is the same as applying them once |
| SettingsDefaults.OnlyEmptyChange | src/config.rs:139-163 | a setting changes only when it was empty, and then to its own default |
| SettingsDefaults.DefaultsOfBlank | src/config.rs:134-137 | blank settings become ` - ` separators, `default` numbers and paths, and `cyan` separator styles |
| KeyValueStore.BuildTable | src/test_config.rs:37-43 | building the table from default texts only adds keys |
| KeyValueStore.BuildTableOfItems | src/test_config.rs:37-43 | texts of the form `name=value` without further `=` build the table of their pairs, with later texts overriding earlier ones |
| KeyValueStore.BuildTablePanics | src/test_config.rs:37-43 | the construction panics exactly when some text does not split on `=` into exactly two pieces |
| KeyValueStore.MalformedItemPanics | src/test_config.rs:39-41 | a text without `=` makes the construction panic |
| KeyValueStore.DoubleEqualsPanics | src/test_config.rs:39-41 | a text with two `=` splits into three pieces and makes the construction panic |
| KeyValueStore.InsertLast | src/test_config.rs:42 | a name's value is that of its last text |
| KeyValueStore.DefaultBuilds | src/test_config.rs:9-43 | the built-in default texts are all well formed, so `new` does not panic on them |
| KeyValueStore.DefaultKeys | src/test_config.rs:9-21 | the default table has exactly the names of the default texts |
| KeyValueStore.DefaultStackSeparator | src/test_config.rs:13-16 | `stack_separator` appears twice among the defaults, and the later value `cyan` wins |
| KeyValueStore.DefaultBookmarkSeparator | src/test_config.rs:14-19 | `bookmark_separator` appears twice among the defaults, and the later value `cyan` wins |
| KeyValueStore.KeyValue | src/test_config.rs:99-107 | the key and the value of a line are both free of `=` |
| KeyValueStore.KeyValueShapes | src/test_config.rs:99-107 | in `a=b=c` the key is `a` and the value is `c`; a line without `=` is both key and value |
| KeyValueStore.Update | src/test_config.rs:108-114 | reading lines never adds or removes a setting |
| KeyValueStore.ParseConfig | src/test_config.rs:83-119 | parsing the file text always succeeds and keeps the set of known settings |
| KeyValueStore.UpdateMeaning | src/test_config.rs:93-115 | a known setting takes the value of the last non-comment line whose key names it, or keeps its value when no line does |
| KeyValueStore.ReadBackWritten | src/test_config.rs:83-129 | reading back a written file overwrites exactly the written settings that are known, with their written values |
| KeyValueStore.WriteConfig | src/test_config.rs:122-129 | for an iteration order that lists every entry once, the written text starts with the comment line and ends with a line break |
| KeyValueStore.WriteConfigLines | src/test_config.rs:122-129 | when every entry fits on one line, the lines of the written text are the comment, one `name=value` line per entry in iteration order (each entry exactly once), and an empty line |
| KeyValueStore.RoundTrip | src/test_config.rs:83-129 | writing the settings in any iteration order and reading the file back into a table with the same keys, whatever its values, gives the written settings |
| Paths.Components | src/util.rs:12 | root and current-directory components appear only first; names are valid; the path starts at the root exactly when it is absolute |
| Paths.Pop | src/util.rs:15 | popping removes the last name if there is one, and otherwise changes nothing |
| Paths.ToRooted | src/util.rs:6-21 | an absolute path always succeeds; a relative one succeeds exactly when the working directory is available; the result always starts at the root |
| Paths.AbsoluteFromRoot | src/util.rs:8-9 | an absolute path is resolved from an empty buffer at the root |
| Paths.AbsoluteIgnoresCwd | src/util.rs:8-9 | an absolute path resolves to the same result for any two working directories, readable or not |
| Paths.RelativeIsJoined | src/util.rs:10-11 | a relative path resolves like the working directory joined with it |
| Paths.Idempotent | src/util.rs:6-21 | rooting the rendered result again gives the same result |
| Paths.DotIgnored | src/util.rs:14 | a trailing `.` component changes nothing |
| Paths.ParentOfRoot | src/util.rs:15 | `/..` resolves to the root |
| Paths.ParentCancels | src/util.rs:15-16 | entering a name and leaving it again with `..` changes nothing |
| Paths.RenderedIsNormal | src/util.rs:12-18 | a rooted list of plain names renders as an absolute path that resolves to itself |
| Paths.AbsoluteAppend | src/util.rs:12-18 | resolving `p/q` continues from where `p` resolved |
| Text.Trim | config-parser/config-parser-common/src/common.rs:8 | the trimmed text has no leading or trailing Unicode whitespace, is no longer than the input, and introduces no new characters; `Text.TrimInfix` and `Text.TrimUnique` pin down which infix it is |
| Text.TrimIdempotent | config-parser/config-parser-common/src/common.rs:23 | trimming a second time changes nothing |
| Text.TrimInfix | config-parser/config-parser-common/src/common.rs:8 | the trimmed text is the infix of the input after its leading whitespace, and all that follows it is whitespace |
| Text.TrimUnique | config-parser/config-parser-common/src/common.rs:8 | any trimmed infix with only whitespace around it is the trimmed text |
| Text.TrimLower | config-parser/config-parser-common/src/format.rs:197 | trimming and lower-casing can be done in either order |
| Text.Split | config-parser/config-parser-common/src/common.rs:23 | splitting always yields at least one piece, and no piece contains a separator |
| Text.SplitJoin | config-parser/config-parser-common/src/common.rs:23 | splitting pieces joined by a separator they do not contain gives back the pieces |
| Text.JoinSplit | src/test_config.rs:99 | joining the pieces of a split with the separator gives back the text |
| Text.SplitConcat | config-parser/config-parser-common/src/common.rs:23 | the pieces of `a`, a separator and `b` are the pieces of `a` followed by the pieces of `b` |
| Text.SplitLower | config-parser/config-parser-common/src/format.rs:197 | splitting at separators that are not letters commutes with lower-casing |
| Text.Lines | config-parser/config-parser-common/src/common.rs:5 | no line contains a line break |
| Text.Lower | config-parser/config-parser-common/src/format.rs:197 | lowering keeps the length and lowers each character on its own; which characters it lowers is stated under "## Left out" |
| Text.RemoveChars | config-parser/config-parser-common/src/common.rs:31 | a character is in the result exactly when it is in the input and is not one of the removed characters; the result is no longer than the input |
| Text.RemoveCharsConcat | config-parser/config-parser-common/src/common.rs:31 | removing characters from a concatenation removes them from each part, so every other character is kept in order |
| Text.RemoveCharsOne | config-parser/config-parser-common/src/common.rs:31 | one character is removed exactly when it is one of the removed characters |
| Text.ByteSlice | config-parser/config-parser-common/src/format.rs:263 | a byte slice exists exactly when both ends fall on character boundaries in order, and it is the characters between them |

## Left out

- File input and output are not modelled. This covers `config_dir`, `is_file`, `fs::read_to_string`, `fs::write`, `write_config_file` and their I/O errors. Each operation is modelled on the text it reads or writes.
- `Config::new` of `src/config.rs` and `build_settings` are not modelled: they load through `toml`/`serde`, which is not part of this model.
- `parse_color_settings` is not modelled: the `parse_color` it calls is not part of this model.
- `to_formatted_string` is not modelled. It is a `Debug` dump of the settings in `src/config.rs`, and a constant `"hi"` in `src/test_config.rs`.
- The `syn`/`quote` machinery is replaced by a schema value. This includes the `no valid attribute found` panic for an attribute path with no segments, which a parsed attribute never has.
- Anonymous (tuple-struct) fields are not modelled: every generated function skips them.
- The hierarchical reader is not modelled: the `(ConfigMap, Vec<String>)` producer that `parse_from_string` calls is not part of this model, so `Binder.ParseFromString` takes its output as a parameter. The same goes for `remove_inline_comment`, which `lib.rs` re-exports.
- The `HashMap` iteration order is a parameter, both for leftover keys and for `write_config`, because Rust leaves it unspecified. Every use requires only that it lists each key once (`Text.ListsKeys` for the leftover listing, `KeyValueStore.IteratesKeys` for `write_config`).
- The `println!` of an ignored unknown setting in `parse_config` is not modelled (console output).
- KeyValueStore.KeyValue: the `None` branches of `first()`/`last()` are not modelled, because `split` always yields at least one piece.
- StyleFormat.ParseRgbColorAsWritten: requires a non-empty token instead of modelling the `as_bytes()[0]` panic. `parse_style` only passes non-empty tokens.
- StyleFormat.ParseRgbColor: requires a non-empty token for the same reason.
- StyleFormat.ParseStyle: is built on the corrected `StyleFormat.ParseRgbColor`. Where `parse_rgb_color` panics (a 7-byte `#` token whose byte offsets split a character), `ParseStyle` reports the unknown-token error instead. `StyleFormat.ParseStyleAsWritten` models the panic, and `StyleFormat.ParseStyleAsWrittenAgrees` states exactly where the two differ.
- StyleFormat.ParseStyleMeaning: describes the corrected `ParseStyle`, so it shares that gap.
- AnsiConversion.ToAnsiSequences: compiles styles with the corrected `StyleFormat.ParseStyle`. Where `parse_style` panics, the model reports "failed to convert" instead.
- StyleFormat.GenerateStyleSequence: requires at least one part instead of modelling the "no arguments" panic, which the source calls a programming mistake. LegacyFormat.GenerateStyleSequence does the same.
- Text.Lower: lowers ASCII letters only, while Rust's `to_lowercase` lowers every Unicode capital. Descriptors with non-ASCII capitals are therefore read differently: the Kelvin sign U+212A lowers to ASCII `k`, so `parse_style` accepts `blin\u{212A}ing` and `blac\u{212A}` where the model reports an unknown token; any other non-ASCII capital appears lowered in the "could not parse style token" message but unchanged in the model's; and U+0130 lowers to two characters (three bytes), which changes the byte length that the 7-byte guard of `parse_rgb_color` sees. On descriptors without non-ASCII capitals the model is exact.
- BinderMessages.Escape: writes every non-control character as itself. Rust's `escape_debug` also escapes unprintable Unicode characters such as combining marks, and this is not modelled.
- Binder.ParseScalar: field types are `String`, `bool` and unsigned integers; other `FromStr` types are not modelled. Parse error kinds are collapsed into `None`.
- Binder.BindField: a `nested_config` field whose type is not a struct, or whose table entry is of the wrong kind, follows the generated `match` arms. The model does not reject such schemas, whereas `rustc` would reject the code generated for them.
- AnsiConversion.ConvertFields: the style compiler is a parameter. `AnsiConversion.ToAnsiSequences` instantiates it with `StyleFormat.ParseStyle`.
- Paths.ToRooted: the working directory is a parameter, and paths are Unix paths. Windows prefixes and non-UTF-8 names are not modelled.
- LegacyConfigParser.ParseConfigFile: its own contract says only that the reader succeeds. What it reads is stated through `LegacyConfigParser.ReadersAgree`.

## Findings

| source | as written | input that shows it | evidently intended | confidence | as-written member | corrected member |
|---|---|---|---|---|---|---|
| config-parser/config-parser-common/src/format.rs:262-263 | `parse_rgb_color` checks the length in bytes (`len() == 7`) and then slices the string at byte offsets 1..=2, 3..=4 and 5..=6, which panics when an offset falls inside a multi-byte character | the style token `#aé123`: 7 bytes, and byte 3 lies inside `é` | a token that is not `#` plus three hexadecimal pairs is reported as "failed to parse rgb color", without a panic | high, not executed | StyleFormat.ParseRgbColorAsWritten (shown by StyleFormat.RgbSliceSplitsCharacter; for the whole descriptor, StyleExamples.SplitCharacterDescriptor) | StyleFormat.ParseRgbColor (proved by StyleFormat.ParseRgbColorIsHexColor) |
