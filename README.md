# Theme colours and prompt adaptation of a C# REPL

This project models two small parts of the REPL's presentation layer in Dafny and proves their properties.

1. **Theme colours** (`CSharpRepl.Services/Theming/Color.cs`, module `Theming` in `theming.dfy`).
   A theme colour has a `name` and a `foreground` text. `TryParseAnsiColor` resolves the text in two steps:
   - first as a `#RRGGBB` literal: exactly seven characters, a `#`, then three two-digit hexadecimal bytes, in either case;
   - otherwise by looking the text up, ignoring case, in the process-wide dictionary of the prompt library's colour names.

   `ToAnsiColor` returns the resolved colour or fails with an error that names the text.
2. **Prompt adaptation** (`LangRepl/PromptConfiguration/PromptAdapter.cs`, module `PromptConfiguration` in `prompt_adapter.dfy`).
   - `ToColor` maps the compiler's classification kinds to a foreground format. Ten kinds are matched exactly and case-sensitively; every other kind gets no format.
   - `AdaptSyntaxClassification` turns classified spans into format spans. It keeps each span's range, uses the colour of its kind, and drops spans whose kind has no colour.
   - `AdaptCompletions` orders completion candidates by descending match priority with a stable sort. It then builds one prompt item per candidate: the start index, the replacement text prefix + text + suffix, and the description provider, which is passed along without being evaluated.

The foreign types are modelled in `ansi.dfy` (module `Ansi`) with only the fields the code uses: PrettyPrompt's `AnsiColor` and `ConsoleFormat`. Roslyn's `ClassifiedSpan`/`CompletionItem` and PrettyPrompt's `FormatSpan`/`CompletionItem` are modelled as records in `prompt_adapter.dfy`. `wrappers.dfy` holds `Option` and `Result`. Both core files are pure C#: LINQ pipelines, a switch expression and guarded checks. They are therefore modelled as functions over values and sequences, with lemmas.

The proofs show the following.
- The hexadecimal path has a round trip in both directions. Every colour's literal parses back to that colour. Every string that parses to an RGB colour is that colour's literal up to case.
- Parsing ignores case on both paths.
- Parsing fails in exactly the stated cases.
- No colour name starts with `#`, so a `#` string never reaches a name by the second path.
- The dictionary's keys are exactly the field names, and no two of them collide under case folding, so building the dictionary never meets a duplicate key.
- `ToColor` is exact, and its table can be read backwards: for each colour, the model gives the set of kinds that get it.
- `AdaptSyntaxClassification` is a stable filter-map, stated through the positions of the coloured spans. It also distributes over concatenation.
- The completion order is non-increasing in priority, keeps each priority's candidates in input order, and is a permutation of the input. These properties determine the order uniquely, so the insertion sort that models `OrderByDescending` gives the only result that `OrderByDescending` can give.

## Model

| member | source | states |
|---|---|---|
| `Theming.AsciiLower` | CSharpRepl.Services/Theming/Color.cs:22 | the folded text has the length of the original, and each character is the original's character with ASCII capitals made small |
| `Theming.EqualsIgnoreCase` | CSharpRepl.Services/Theming/Color.cs:22 | two texts are equal under the case-ignoring comparer exactly when they have the same length and agree character by character up to ASCII case |
| `Theming.TryParseHexByte` | CSharpRepl.Services/Theming/Color.cs:51-53 | a two-character span parses as a hexadecimal byte exactly when both characters are hexadecimal digits |
| `Theming.HexByteRoundTrip` | CSharpRepl.Services/Theming/Color.cs:51-53 | parsing the two upper-case digits of any byte gives that byte back |
| `Theming.HexByteCanonical` | CSharpRepl.Services/Theming/Color.cs:51-53 | a digit pair that parses to `b` equals `b`'s two digits up to case, so the pair determines the byte |
| `Theming.FieldNamesDistinctIgnoringCase` | CSharpRepl.Services/Theming/Color.cs:18-22 | no two colour field names are equal ignoring case, so the case-insensitive `ToDictionary` meets no duplicate key |
| `Theming.AnsiColorNames` | CSharpRepl.Services/Theming/Color.cs:18-22 | the dictionary holds exactly the field names: every key is the case-folded name of the colour it maps to, and every colour's folded field name is a key mapping to that colour |
| `Theming.LookupColorName` | CSharpRepl.Services/Theming/Color.cs:59-63 | the lookup succeeds exactly when the folded text is a key, and it only ever gives a named colour |
| `Theming.NoColorNameStartsWithHash` | CSharpRepl.Services/Theming/Color.cs:50-63 | a text starting with `#` is never a colour name, so it can only succeed by the hexadecimal path |
| `Theming.TryParseAnsiColor` | CSharpRepl.Services/Theming/Color.cs:47-67 | a `#RRGGBB` literal gives `Rgb` of its three digit pairs, an RGB result only ever comes from such a literal, and anything else gives what the name lookup gives |
| `Theming.ParseFailsExactly` | CSharpRepl.Services/Theming/Color.cs:50-66 | parsing fails exactly when the text is neither a `#RRGGBB` literal nor, ignoring case, a colour name, and a well-formed literal always gives RGB, because the hexadecimal path comes first |
| `Theming.HexColorRoundTrip` | CSharpRepl.Services/Theming/Color.cs:50-56 | for every r, g, b, parsing `#` + two hexadecimal digits for each of r, g and b gives `Rgb(r, g, b)` |
| `Theming.RgbOnlyFromItsLiteral` | CSharpRepl.Services/Theming/Color.cs:50-56 | every text that parses to `Rgb(r, g, b)` is that colour's `#RRGGBB` literal up to case |
| `Theming.ParseIgnoresCase` | CSharpRepl.Services/Theming/Color.cs:50-63 | texts equal up to ASCII case resolve to the same colour or both fail, on both paths |
| `Theming.FieldNameCasingsResolve` | CSharpRepl.Services/Theming/Color.cs:59-63 | every casing of a colour's field name resolves to that named colour |
| `Theming.NamedOnlyFromItsName` | CSharpRepl.Services/Theming/Color.cs:59-63 | every text that resolves to a named colour is that colour's field name up to case |
| `Theming.WrongLengthHexFails` | CSharpRepl.Services/Theming/Color.cs:50 | `#12345` and `#1234567` fail: only seven characters take the hexadecimal path |
| `Theming.BadHexDigitFails` | CSharpRepl.Services/Theming/Color.cs:50-66 | `#GG0000` fails: a bad digit fails the hexadecimal path and the name lookup fails too |
| `Theming.UnknownNameFails` | CSharpRepl.Services/Theming/Color.cs:59-66 | `not-a-color` fails |
| `Theming.EmptyTextFails` | CSharpRepl.Services/Theming/Color.cs:59-66 | the empty text fails |
| `Theming.HexLiteralExamples` | CSharpRepl.Services/Theming/Color.cs:50-56 | `#ff8000` and `#FF8000` both give `Rgb(255, 128, 0)` |
| `Theming.MixedCaseNameExample` | CSharpRepl.Services/Theming/Color.cs:59-63 | `ReD` resolves to the named colour red |
| `Theming.Color.ToAnsiColor` | CSharpRepl.Services/Theming/Color.cs:37-45 | succeeds exactly when the foreground is a literal or a colour name, and then gives what `TryParseAnsiColor(Foreground)` gives; otherwise it fails with an error that carries the foreground text |
| `Theming.NewColor` | CSharpRepl.Services/Theming/Color.cs:25-32 | the constructor expects a non-empty name and foreground and stores both unchanged |
| `PromptConfiguration.ToColor` | LangRepl/PromptConfiguration/PromptAdapter.cs:41-57 | a format is returned exactly for the ten listed kinds, and null for every other string |
| `PromptConfiguration.ToColorTable` | LangRepl/PromptConfiguration/PromptAdapter.cs:44-55 | the kinds drawn in bright yellow, bright blue, magenta, bright cyan and cyan are exactly those listed against each colour |
| `PromptConfiguration.ToColorIsCaseSensitive` | LangRepl/PromptConfiguration/PromptAdapter.cs:41-57 | `""`, `Keyword` and `STRING` get no format, while `keyword` gets magenta |
| `PromptConfiguration.ToFormatSpan` | LangRepl/PromptConfiguration/PromptAdapter.cs:21 | a format span keeps its classified span's start and length, and its format is the non-null colour of the kind |
| `PromptConfiguration.IsColored` | LangRepl/PromptConfiguration/PromptAdapter.cs:22 | a span survives the `Where` exactly when its kind is one of the ten coloured kinds |
| `PromptConfiguration.AdaptSyntaxClassification` | LangRepl/PromptConfiguration/PromptAdapter.cs:18-24 | the output is never longer than the input |
| `PromptConfiguration.AdaptSyntaxClassificationIsFilterMap` | LangRepl/PromptConfiguration/PromptAdapter.cs:20-23 | output span k is the format span of the k-th coloured input span, so exactly the coloured spans are kept, in input order |
| `PromptConfiguration.AdaptSyntaxClassificationAppend` | LangRepl/PromptConfiguration/PromptAdapter.cs:20-23 | adapting a concatenation concatenates the adapted parts, so each span is mapped on its own |
| `PromptConfiguration.AdaptSyntaxClassificationSpans` | LangRepl/PromptConfiguration/PromptAdapter.cs:20-23 | every output span comes from a coloured input span with the same range and colour, and nothing is dropped exactly when every kind is coloured |
| `PromptConfiguration.AdaptSyntaxClassificationExample` | LangRepl/PromptConfiguration/PromptAdapter.cs:18-24 | a string, an unknown kind and a comment give the yellow and cyan spans in input order, and empty input gives empty output |
| `PromptConfiguration.InsertByPriority` | LangRepl/PromptConfiguration/PromptAdapter.cs:29 | inserting one candidate into an ordered list yields one more element; sortedness, stability and permutation are stated by `InsertByPrioritySorted`, `InsertByPriorityStable` and `InsertByPriorityPermutes` |
| `PromptConfiguration.OrderByPriorityDescending` | LangRepl/PromptConfiguration/PromptAdapter.cs:29 | the ordered list has one element per candidate; its meaning is given by the stable-sort, permutation and uniqueness lemmas below |
| `PromptConfiguration.OrderByPriorityDescendingIsStableSort` | LangRepl/PromptConfiguration/PromptAdapter.cs:29 | the order is non-increasing in match priority, and candidates of equal priority keep their input order |
| `PromptConfiguration.OrderByPriorityDescendingPermutes` | LangRepl/PromptConfiguration/PromptAdapter.cs:29 | the order is a permutation of the candidates |
| `PromptConfiguration.StableSortIsUnique` | LangRepl/PromptConfiguration/PromptAdapter.cs:29 | two sorted orders with the same candidates of each priority, in the same order, are equal |
| `PromptConfiguration.OrderByPriorityDescendingIsUnique` | LangRepl/PromptConfiguration/PromptAdapter.cs:29 | every stable descending order of the candidates is the modelled one |
| `PromptConfiguration.ToPromptCompletionItem` | LangRepl/PromptConfiguration/PromptAdapter.cs:30-35 | the item starts at the candidate's span start, its replacement text is the prefix, then the display text, then the suffix, and it carries the candidate's description provider unevaluated |
| `PromptConfiguration.ToPromptCompletionItems` | LangRepl/PromptConfiguration/PromptAdapter.cs:30-35 | the `Select` yields one item per ordered candidate, item k built from candidate k |
| `PromptConfiguration.AdaptCompletions` | LangRepl/PromptConfiguration/PromptAdapter.cs:26-39 | one item per candidate: the output has the input's length |
| `PromptConfiguration.AdaptCompletionsSpec` | LangRepl/PromptConfiguration/PromptAdapter.cs:28-36 | item k comes from candidate k of the stable descending order, with its span start, its prefix + text + suffix, and its description provider unevaluated |
| `PromptConfiguration.AdaptCompletionsPermutes` | LangRepl/PromptConfiguration/PromptAdapter.cs:28-36 | the items are a permutation of the candidates' items taken in input order |
| `PromptConfiguration.ExampleOrder` | LangRepl/PromptConfiguration/PromptAdapter.cs:29 | priorities 3, 1, 3, 2 are ordered as input positions 0, 2, 3, 1 |
| `PromptConfiguration.AdaptCompletionsExample` | LangRepl/PromptConfiguration/PromptAdapter.cs:26-39 | the same example comes out as descriptions 0, 2, 3, 1; `Wr` + `ite` + `Line` becomes `WriteLine`; and empty input gives empty output |

## Left out

- The reflection scan that builds the colour dictionary (Color.cs:18-22) is replaced by the explicit field list `AnsiColorFields`. It holds the sixteen standard colours, black to white and their bright variants. PrettyPrompt's `AnsiColor` is not part of this model, so any further public static colour fields it has are not modelled.
- `StringComparer.OrdinalIgnoreCase` is modelled on ASCII letters only. Upper-casing outside ASCII is not modelled.
- `Theming.TryParseHexByte`: the model takes `byte.TryParse` with `AllowHexSpecifier` to accept exactly two hexadecimal digits. .NET's number parser also tolerates trailing NUL characters, and that is not modelled.
- Lengths and characters are UTF-16 code units in C#. Here they are Dafny `char`s.
- `Theming.NewColor`: the `Debug.Assert` checks run only in debug builds, so they appear as the constructor's precondition. The `Color` datatype itself can still hold empty texts.
- `Theming.Color.ToAnsiColor`: the `ArgumentException` is modelled as an error value that carries the foreground text. The exact message wording is not modelled.
- The description provider has an opaque type parameter and is never evaluated. Its laziness and asynchrony are not modelled.
- `OrderByDescending` is modelled by an insertion sort. LINQ's own sorting algorithm is not modelled. The model is proved to be the unique stable descending order, so it agrees with any stable sort on every input.
- The `?? Array.Empty<PromptCompletionItem>()` fallback is unreachable because `ToArray` never returns null, so it has no counterpart in the model.
- The JSON attributes, escape-code rendering of `ConsoleFormat`, and every field of the foreign types that the code does not read or write are not modelled.
- `CSharpRepl.Services/Completion/OpenAI/CompletionApi/CompletionRequest.cs` is not modelled. It is a data holder for an HTTP request with no logic, and its sampling fields are floating point.
