# code2snippets in Dafny

code2snippets turns a source file into a VS Code user snippet. It derives a
snippet name, a trigger prefix and a description from the file name. Options
given on the command line override them. The file's lines become an escaped
JSON `body` array. The command then either overwrites the output file with a
one-entry snippets document or splices the new entry into the document that
is already there. A separate, minimal configuration reader finds a
configuration file and reads six settings from it by first-match substring
search.

The model has six modules:

- `Wrappers`: `Option`.
- `Text`: the C-locale character classes, and the `std::string` searches the
  program relies on (`find`, `find_first_not_of`, `find_last_not_of`).
- `JsonEscape`: `escapeForJson`, and a reference decoder for JSON string
  bodies (RFC 8259, section 7) that the escaper is proved against.
- `Snippet`: base name and prefix derivation (`generateConfigFromFilename`),
  the fragment writer (`generateSnippetJson`) and the textual merge
  (`mergeSnippets`).
- `Cli`: `parseCommandLine`, the overlay of command-line values onto the
  derived record, and `main` as a whole.
- `Config`: `trim`, `hasKey`, `extractString`, `extractBool`, `parse`,
  `findConfigFile` and `loadConfig`.

The loops of the source are Dafny methods with loop invariants, each proved
equal to a specification function:
- `EscapeForJson`, `GenerateConfigFromFilename`, `GenerateSnippetJson`,
  `MergeSnippets`, `ParseCommandLine` and `ExtractBool`;
- the two loops of `extractBool` are the methods `SkipSpaces` and
  `ReadToken`, which `ExtractBool` calls.

In `ParseCommandLine`, the five value-taking flags share one branch. The
branch takes the next argument into the field that `ValueFlag` names for
the flag, as each of the five source branches does for its own field.

The pure `find`/`substr` chains are functions, and the properties are lemmas
about those functions. `AppConfig` is a class. `Parse` and `LoadConfig`
update its `settings` field in place, as the source does through a
reference. `CommandLineArgs`, which `parseCommandLine` fills through a
reference that `main` default-constructs, is returned as a value that starts
from the defaults.

The environment is passed in:
- `fs::exists` as a predicate on paths;
- `fs::path::stem` as a function from paths to stems;
- the value of `HOME` as an optional string;
- file contents as functions from paths to lines or to text;
- whether `parse` can open its file as a flag.

Characters are Dafny `char`s. Every character at or above the space
character, other than `"` and `\`, passes through the escaper unchanged.

Two things the program does not do:
- `main` never calls the configuration reader, so there is no
  configuration tier in the precedence of name, prefix and description. No
  output directory is joined to the output path. Only the command-line
  overlay of `src/main.cpp:263-265` is modelled.
- `parseCommandLine` knows no `-c`/`--config` and no `--show-config`
  option. Like any other unknown argument, they make it fail.

## Model

| member | source | states |
|---|---|---|
| Text.ToLower | src/main.cpp:89 | C-locale `tolower`: the result is never an upper-case ASCII letter, `A`..`Z` move down by 32, every other character is unchanged |
| Text.FindSub | src/config.cpp:23 | `find(pat, from)`: the first position at or after `from` where `pat` occurs, or None exactly when it occurs nowhere from there |
| Text.FindSubContains | src/config.cpp:61-64 | a search from 0 succeeds exactly when `pat` is a substring |
| Text.FindChar | src/config.cpp:26-33 | `find(c, from)`: an index it finds is at or after `from`, inside the text, and holds `c` |
| Text.FindCharFirst | src/config.cpp:26-33 | no index between `from` and the one found holds `c`; when nothing is found, no index from `from` on holds `c` |
| Text.FindCharAt | src/config.cpp:26-33 | the search from `from` stops at the first index that holds `c` |
| Text.FirstNotIn | src/config.cpp:14 | `find_first_not_of`: the first index not in the set, or None when every remaining character is in it |
| Text.LastNotIn | src/config.cpp:16 | `find_last_not_of`: the last index not in the set, or None when every character is in it |
| JsonEscape.EscapeChar | src/main.cpp:58-75 | specification function: the escape written for one character; its cases are stated by `EscapeCharCases` |
| JsonEscape.Escape | src/main.cpp:54-78 | specification function: the escapes of the characters in order; `EscapeForJson` computes it and `EscapeRoundTrip` decodes it back |
| JsonEscape.EscapeCharCases | src/main.cpp:58-75 | `\` and `"` get a backslash; backspace, form feed, newline, carriage return and tab get their letter escapes; any other character below 32 becomes `\u00` and two lower-case hex digits; every other character stands for itself; no escape holds a character below U+0020, and every escape is at most 6 long |
| JsonEscape.EscapeForJson | src/main.cpp:54-78 | the loop's result is the character-by-character escape of the whole input |
| JsonEscape.EscapeAppend | src/main.cpp:57-76 | escaping distributes over concatenation |
| JsonEscape.EscapeNoControl | src/main.cpp:54-78 | the escaped text holds no control character |
| JsonEscape.EscapeQuotesEscaped | src/main.cpp:54-78 | every `"` in the escaped text follows a backslash (which may itself be escaped; the stronger "no unescaped quote" is what `EscapeRoundTrip` gives, since the decoder refuses a bare `"`) |
| JsonEscape.HexValue | src/main.cpp:69 | helper of the reference decoder that reads back the digits written at this line: a hex digit's value is below 16 |
| JsonEscape.Hex4 | src/main.cpp:69 | helper of the reference decoder that reads back the `\u` escapes written at this line: four hex digits denote a value below 0x10000, so the decoded value is a character |
| JsonEscape.HexDigit | src/main.cpp:69 | the lower-case digit `std::hex` prints for a value below 16; `HexDigitValue` states that it reads back as that value |
| JsonEscape.HexDigitValue | src/main.cpp:69 | the digit written for `d` reads back as `d` |
| JsonEscape.UnescapeChar | src/main.cpp:58-75 | decoding one character's escape, followed by any text, yields that character followed by the decoding of the text |
| JsonEscape.EscapeRoundTrip | src/main.cpp:54-78 | decoding the escaped text as a JSON string body gives back the input |
| JsonEscape.EscapeInjective | src/main.cpp:54-78 | different inputs have different escapes |
| Snippet.GetBaseName | src/main.cpp:45-52 | the base name is the stem, or `snippet` when the stem is empty; it is never empty |
| Snippet.Lowered | src/main.cpp:84-91 | the first pass keeps the length and maps `_` and `-` to a space and every other character through `tolower` |
| Snippet.Collapse | src/main.cpp:93-106 | specification function of the second pass: a space right after a space is dropped; its properties are `CollapseBounds`, `CollapseNoDoubleSpace`, `CollapseFixed` and `CollapseIdempotent` |
| Snippet.CollapseBounds | src/main.cpp:93-106 | the second pass never lengthens the text, keeps its first and last character and only keeps characters of its input |
| Snippet.CollapseNoDoubleSpace | src/main.cpp:96-106 | the second pass never leaves two spaces in a row |
| Snippet.CollapseFixed | src/main.cpp:96-106 | text without two spaces in a row passes the second pass unchanged |
| Snippet.CollapseIdempotent | src/main.cpp:93-106 | applying the second pass twice is applying it once |
| Snippet.DerivedPrefixWellFormed | src/main.cpp:84-106 | a derived prefix has no `_`, no `-`, no upper-case letter and no double space, and is no longer than the base name |
| Snippet.GenerateConfigFromFilename | src/main.cpp:80-113 | name is the base name, prefix is the two passes over it (and so well formed and no longer than the name), description is `Code snippet from ` + name |
| Snippet.QuotedLines | src/main.cpp:145 | each input line becomes one indented, quoted, escaped item, in order |
| Snippet.BodyText | src/main.cpp:144-150 | specification function of the counted body loop; `BodyTextJoin` and `BodyTextLineCount` state what it produces |
| Snippet.BodyTextJoin | src/main.cpp:144-150 | the body is empty for no lines, else the items joined by `,\n` with a final newline |
| Snippet.QuotedLineNoNewline | src/main.cpp:145 | a quoted line holds no newline |
| Snippet.NoControlNoNewline | src/main.cpp:145 | text without control characters holds no newline |
| Snippet.BodyTextLineCount | src/main.cpp:144-150 | the body of k items without newlines has exactly k newlines |
| Snippet.SnippetBody | src/main.cpp:144-150 | one body line per input line, in order, comma-separated, with no comma after the last |
| Snippet.SnippetJson | src/main.cpp:134-157 | specification function of the fragment: opening, body lines, closing; `GenerateSnippetJson` computes it and `SnippetJsonShape` states its form |
| Snippet.SnippetJsonShape | src/main.cpp:140-154 | the fragment starts with two spaces, the quoted escaped name and `": {` plus a newline, and ends with a newline, two spaces and `}`, with no newline after it |
| Snippet.SnippetJsonEmptyBody | src/main.cpp:142-152 | with no lines, `"body": [` is followed directly by `],` |
| Snippet.SnippetJsonIsFragment | src/main.cpp:134-157 | the fragment is non-empty and does not end in white space |
| Snippet.GenerateSnippetJson | src/main.cpp:134-157 | the streamed text equals the fragment specification |
| Snippet.TrimEnd | src/main.cpp:217-220 | the trailing-space loop leaves a prefix of the input that does not end in white space, having removed only white space |
| Snippet.Opened | src/main.cpp:226-232 | the opened document is a prefix of the input that does not end in white space |
| Snippet.OpenedRemoves | src/main.cpp:217-232 | opening removes only white space, and at most one `}`, which was the last non-space character |
| Snippet.Merge | src/main.cpp:216-240 | specification function of the merge: the fragment alone in braces when the opened text is empty or `{`, else appended after a comma; `MergeSnippets` computes it and `MergeShape` states its form |
| Snippet.MergeShape | src/main.cpp:216-240 | every merge ends with `\n}\n`; unless it starts afresh, the opened document is kept verbatim and followed by `,\n`, the fragment and `\n}\n` |
| Snippet.MergeSnippets | src/main.cpp:216-240 | the `pop_back` loops compute the merge specification |
| Snippet.Wrap | src/main.cpp:222-237 | the fragment alone in braces, `{\n`, the fragment and `\n}\n`, as `mergeSnippets` returns it at lines 223 and 236 and overwrite mode writes it at line 279; `MergeIntoBlank`, `MergeIntoEmptyObject`, `OverwriteIsMergeIntoEmpty` and `MergeIntoObject` state where it arises |
| Snippet.MergeIntoBlank | src/main.cpp:217-224 | merging into white space gives the fragment alone in braces |
| Snippet.MergeIntoEmptyObject | src/main.cpp:226-237 | merging into `{` (optionally closed by `}`) and white space gives the fragment alone in braces |
| Snippet.OverwriteIsMergeIntoEmpty | src/main.cpp:274-280 | merging into an empty file writes what overwrite mode writes |
| Snippet.MergeIntoObject | src/main.cpp:226-239 | merging into a wrapped document keeps its entries and adds the fragment after a comma |
| Snippet.AppendAllFrom | src/main.cpp:216-240 | repeated merges into a wrapped document give all fragments, in order, comma-joined in one pair of braces |
| Snippet.AppendAllToEmpty | src/main.cpp:216-240 | repeated merges starting from an empty file give all fragments comma-joined in one pair of braces |
| Cli.ScanArgs | src/main.cpp:160-186 | specification function of the scan loop: help, a missing value and an unknown option stop it, value flags set their field, `-a` sets append; `ScanAt`, `ScanRendered` and `CompletedIsRendered` state it |
| Cli.ParseResult | src/main.cpp:159-199 | specification function of `parseCommandLine`: the scan completed, input and output are non-empty and the input exists; `ParseCommandLine` computes it and `LastOccurrenceWins` characterises it |
| Cli.ScanAt | src/main.cpp:160-185 | one pass of the loop at index `i`: help stops, a value-taking flag takes the next argument or fails when there is none, `-a` sets append, anything else stops |
| Cli.ParseCommandLine | src/main.cpp:159-199 | the scanning loop computes the parse specification; success implies an input and an output were given and the input exists |
| Cli.SpellingIsValueFlag | src/main.cpp:164-179 | both spellings of each value-taking flag are recognised as that flag and as no other option |
| Cli.ScanRendered | src/main.cpp:160-186 | scanning a list of well-formed options applies them in order |
| Cli.ApplyAllSnoc | src/main.cpp:160-186 | one more option is applied after the ones before it |
| Cli.ApplyFields | src/main.cpp:164-181 | one option changes only the field it names, or only the append flag |
| Cli.ApplyAllFields | src/main.cpp:164-181 | after applying options, each field holds the last value given for it, or its old value; append is set if any append flag was given |
| Cli.LastOccurrenceWins | src/main.cpp:159-199 | for any well-formed option list the scan completes, each field holds its last occurrence, and the verdict is true exactly when input and output are non-empty and the input exists |
| Cli.HelpFails | src/main.cpp:162-163 | `-h` or `--help` anywhere after well-formed options makes parsing fail |
| Cli.TrailingFlagFails | src/main.cpp:164-179 | a value-taking flag as the last argument makes parsing fail |
| Cli.UnknownOptionFails | src/main.cpp:182-185 | an unrecognised argument makes parsing fail |
| Cli.CompletedIsRendered | src/main.cpp:160-186 | every argument list the scan completes on is a rendered list of options, applied in order |
| Cli.Overlay | src/main.cpp:263-265 | specification function of the three overrides; `OverlayOnlyGiven` and `CliOverridesDerived` state it |
| Cli.OverlayOnlyGiven | src/main.cpp:263-265 | the overlay replaces exactly the fields given on the command line, each independently; it is idempotent and changes nothing when no field is given |
| Cli.EffectiveConfig | src/main.cpp:260-265 | the derived configuration with the command-line overlay; `CliOverridesDerived` and `MyUtilConfig` state it |
| Cli.CliOverridesDerived | src/main.cpp:260-265 | the effective name, prefix and description are the last command-line value if any, else the derived value |
| Cli.RunResult | src/main.cpp:250-293 | specification function of `main`'s outcome; `Run` computes it and `MyUtilExample` gives the worked case |
| Cli.Run | src/main.cpp:250-293 | `main` exits 1 with nothing written on a usage error; otherwise it exits 0, writing the merged text in append mode and the wrapped fragment otherwise |
| Cli.MyUtilArguments | src/main.cpp:159-199 | `-i my_util.py -o snippets.json` parses successfully into those two paths |
| Cli.MyUtilConfig | src/main.cpp:80-113 | the stem `my_util` gives name `my_util`, prefix `my util` and description `Code snippet from my_util` |
| Cli.MyUtilExample | src/main.cpp:250-293 | that run writes one snippet `my_util` with prefix `my util`, the two lines as body and that description, wrapped in braces |
| Config.Trim | src/config.cpp:13-18 | a contiguous piece of the input with only space, tab, newline and return cut from both ends and none left at either end; empty exactly when the input is all such characters |
| Config.TrimIdempotent | src/config.cpp:13-18 | trimming twice is trimming once |
| Config.HasKey | src/config.cpp:61-64 | `hasKey` as a search from the start; `HasKeyIsSubstring` states what it means |
| Config.HasKeyIsSubstring | src/config.cpp:61-64 | holds exactly when the key in double quotes is a substring |
| Config.ExtractString | src/config.cpp:20-37 | the value holds no `"`, and is empty when the key is absent |
| Config.ExtractStringQuoted | src/config.cpp:29-36 | a non-empty value stands between two double quotes of the text |
| Config.ExtractStringNoColon | src/config.cpp:23-27 | without a colon at or after the first occurrence of the quoted key the value is empty, whatever comes before the key |
| Config.ExtractStringNoOpenQuote | src/config.cpp:23-30 | without a `"` after the first colon that follows the key the value is empty |
| Config.ExtractStringNoCloseQuote | src/config.cpp:23-34 | with an opening `"` after that colon but no closing one the value is empty |
| Config.QuotedAfterNone | src/config.cpp:29-30 | without a `"` after an index nothing is quoted after it |
| Config.QuotedAfterUnclosed | src/config.cpp:33-34 | with one `"` after an index and none after that, nothing is quoted after it |
| Config.QuotedAfter | src/config.cpp:29-36 | the text between the next two double quotes holds no `"` |
| Config.QuotedAfterAt | src/config.cpp:29-36 | with the first `"` from a position at `open` and the next one at `close`, the value is the text strictly between them |
| Config.ExtractStringAt | src/config.cpp:20-37 | with the key first found at `p`, the first colon after it at `colon`, and the next two double quotes at `open` and `close`, the value is the text strictly between those quotes |
| Config.SkipSpace | src/config.cpp:48 | an index at or after the position, inside the text, that holds no white space |
| Config.SkipSpaceSkips | src/config.cpp:48 | every character skipped is white space |
| Config.SkipSpaceOver | src/config.cpp:48 | the skip from `i` stops at the first index that is not white space |
| Config.TokenEnd | src/config.cpp:51-52 | an index at or after the position, inside the text, that ends the token or is the end of the text |
| Config.TokenEndTokens | src/config.cpp:51-52 | no character of the token is white space, `,`, `}` or a newline |
| Config.TokenEndOver | src/config.cpp:51-52 | the token from `i` ends at the first white space, `,`, `}` or newline |
| Config.SkipSpaces | src/config.cpp:47-48 | the loop stops where the white-space skip specification does |
| Config.ReadToken | src/config.cpp:50-54 | the loop collects exactly the token of the specification |
| Config.BoolToken | src/config.cpp:40-54 | the token holds no ending character; there is none when the key is absent |
| Config.BoolValue | src/config.cpp:56-58 | true only for the token `true`, false only for `false`, the default for any other token or a missing key |
| Config.ExtractBool | src/config.cpp:39-59 | the two scanning loops compute the boolean specification |
| Config.QuotedTokenIsDefault | src/config.cpp:51-58 | a quoted token such as `"true"` gives the default |
| Config.BoolTokenAt | src/config.cpp:39-54 | with the key first found at `p` and the first colon after it at `colon`, the token is the text from the first non-space character after the colon up to the next white space, `,`, `}` or newline |
| Config.ReadField | src/config.cpp:121-159 | one guarded read changes no field but its own |
| Config.ScanRegion | src/config.cpp:114-119 | specification function of the region `parse` reads; `ScanRegionShape` and `ScanRegionAt` characterise it |
| Config.RegionFrom | src/config.cpp:116-119 | the two brace searches after the key; `RegionFromFound` and `RegionFromMissing` characterise them |
| Config.ScanRegionShape | src/config.cpp:114-119 | without `"settings"` the region is the whole text; with it, a found region runs from the first `{` at or after the key's first occurrence to the first `}` at or after that `{`; the region is missing exactly when no `{` follows the key or no `}` follows the first such `{` |
| Config.RegionFromFound | src/config.cpp:116-119 | a region found from an index is the text between the first `{` after it and the first `}` after that, both included |
| Config.RegionFromMissing | src/config.cpp:116-118 | no region is found exactly when no `{` follows the index or no `}` follows the first `{` |
| Config.ScanRegionAt | src/config.cpp:114-119 | the converse: given the first `{` after the first `"settings"` and the first `}` after it, the region is the text between them |
| Config.ReadFields | src/config.cpp:121-159 | the six guarded reads in `parse`'s order; `ReadFieldsByKey` states their effect and `ReadInto` computes them |
| Config.ParseContent | src/config.cpp:114-160 | the settings `parse` leaves after reading the content; `ReadFieldsByKey`, `ParseContentUnchanged` and `ScanRegionShape` state its parts, and `Parse` and `LoadConfig` compute it |
| Config.ReadFieldsByKey | src/config.cpp:121-159 | each field is overwritten exactly when its quoted key occurs in the region, with the value extracted from the region; the others keep their value |
| Config.ParseContentUnchanged | src/config.cpp:114-160 | a missing brace, or a region without any of the six keys, changes no setting |
| Config.Parse | src/config.cpp:102-163 | returns whether the file opened; then the settings are the content read over the old settings; otherwise they are unchanged |
| Config.ReadInto | src/config.cpp:121-138 | the six guarded updates read the region over the settings |
| Config.ReadOne | src/config.cpp:121-123 | one guarded update changes the settings as one guarded read specifies |
| Config.Candidates | src/config.cpp:66-100 | the candidate paths, all non-empty: the custom path only when given, the two local paths, the home path only when `HOME` is set, the system path |
| Config.FirstExistingFirst | src/config.cpp:66-100 | the first existing path of a list, or empty exactly when none exists |
| Config.FindConfigFile | src/config.cpp:66-100 | `findConfigFile` as its chain of guarded early returns; `FindConfigFileIsFirst` and `FindConfigFileFirst` characterise it |
| Config.FindConfigFileIsFirst | src/config.cpp:66-100 | the guarded early returns pick the first existing candidate, in order |
| Config.StandardSearch | src/config.cpp:77-98 | after the custom path, the local file, the local directory file, the home file (when `HOME` is set) and the system file are tried in that order |
| Config.FindConfigFileFirst | src/config.cpp:66-100 | the search finds nothing exactly when no candidate exists, and otherwise the first candidate that exists |
| Config.LoadConfig | src/config.cpp:165-172 | with no configuration file found it returns false and leaves the settings unchanged; otherwise it returns whether the file opened and parses it over the settings |

## Left out

- Console output: `printUsage`, the messages of `parseCommandLine` and `main`, and the summary `main` prints on success.
- File reading and writing: `readFileContent`, `readExistingSnippets`, `writeSnippets` and the `ifstream` read in `parse`. They are input functions and the `Written` outcome of `Run`; whether `parse` could open its file is a flag.
- `Run`: the exceptions thrown when a file cannot be read or written, and the exit status 1 that follows, are not modelled; the model assumes every read and write succeeds.
- `fs::path::stem`: its rules for directories and extensions are library behaviour, so the stem is an input and only the `snippet` fallback is modelled.
- `std::isspace` and `std::tolower`: fixed to their C-locale ASCII definitions.
- EscapeForJson: characters are unsigned, so bytes at or above 0x80 pass through unchanged. With a signed `char` they compare below 32 and print as `\uffffffXX`. That depends on the platform and is not modelled.
- The `reserve(str.size() * 1.2)` call in `escapeForJson`: it only allocates capacity.
- The path separator under `_WIN32`: the model uses `/`.
- `AppConfig` and its settings are declared in config.h, which is not part of this model. The settings are taken to be four optional strings and two booleans that default to false.
- Unescape: a `\u` escape that names a UTF-16 surrogate is refused, since surrogate pairs are not decoded. The escaper never writes one.
- `ConfigParser::trim` is defined in the source but never called there; it is modelled on its own.
