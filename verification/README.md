# grok pattern compiler — a Dafny model

This project models the core of the Rust crate `grok` (`src/lib.rs`). The core has two parts.

- **Expander (`Grok::compile`).** It rewrites a template that holds `%{NAME}`, `%{NAME:alias}` and `%{NAME:alias:type}` placeholders into a regular expression. It repeatedly takes the leftmost placeholder and looks its fragment up in a registry that the caller filled with `add_pattern`. It then replaces every literal copy of that placeholder's text, one at a time, by a non-capturing group `(?:F)` or by a fresh capturing group `(?<name_i>F)`. Each capturing group is recorded in an alias map from the generated name to the external name and optional type tag. The outer loop has a budget of 1024 resolutions.
- **Extractor (`Pattern::parse`).** After a match, it coerces the capture of every participating alias-map group by its type tag (`int`, `float`, or text). It stores each value under its external name. A failed conversion makes the whole call fail.

Modules, in dependency order:

| module | file | contents |
|---|---|---|
| `Wrappers` | wrappers.dfy | `Option`, `Result` |
| `Strings` | strings.dfy | leftmost search, `replacen(.., 1)`, occurrence count |
| `Decimal` | decimal.dfy | decimal digits, `i64` parsing and printing |
| `Scanner` | scanner.dfy | the placeholder grammar (`GROK_PATTERN`) as a hand-written recogniser and leftmost search |
| `Extractor` | extractor.dfy | `Value`, alias map, `Pattern`, coercion, `Pattern::parse` |
| `Rewrite` | rewrite.dfy | the replace-while-present loop on text, and its tokenized reading |
| `Compiler` | compiler.dfy | the registry, `add_pattern`, the inner and outer loops of `compile`, `compile` itself |
| `CompileFacts` | compile_facts.dfy | whole-run facts: single placeholders, registries that never ground out |
| `Scenarios` | scenarios.dfy | concrete registries and texts: aliases, types, `with_alias_only`, unknown names, a cycle, self-reference, `i64` edge cases |

How the model is built:

- **Two readings of `compile`.**
  - `Compiler.CompileRun` is the loop as written. Every inner `while` runs for at most `fuel` passes, and `None` means the fuel ran out.
  - `Compiler.Compile` is the tokenized reading. All copies of a placeholder's text are spliced at once (`Compiler.ReplaceAll`). A fragment that contains the exact text of the placeholder it replaces gives `Diverges`.
  - `Compiler.CompileRunAgrees` proves the two readings agree:
    - a run that ends returns what `Compile` returns;
    - when `Compile` diverges, no fuel is enough;
    - when `Compile` returns, some fuel is enough.
- **Parameters for what the model does not define.**
  - The regex engine: `accepts` says whether `Regex::new` takes the expanded text, and `engine` stands for `captures`.
  - Float parsing: `parseFloat`.
  - The `HashMap` iteration order in `parse`: `order`, which may be any enumeration of the alias map's keys.

## Model

| member | source | states |
|---|---|---|
| Compiler.AddPattern | src/lib.rs:78-80 | the registered name now maps to the new fragment; every other name keeps its lookup |
| Compiler.AddPatternLastWins | src/lib.rs:78-80 | registering a name twice keeps only the second fragment |
| Compiler.AddPatternCommutes | src/lib.rs:78-80 | registrations under different names can be made in either order |
| Compiler.GroupNameInjective | src/lib.rs:110 | different counters give different `name<i>` group names |
| Compiler.ReplacementShape | src/lib.rs:105-116 | every replacement is a `%`-free head starting with `(`, then the raw fragment, then `)` |
| Compiler.ParensOutsideText | src/lib.rs:102 | the `to_match` text of a placeholder starts with `%` and holds no parenthesis |
| Compiler.ReplacementContains | src/lib.rs:105-116 | a replacement contains the placeholder text exactly when its fragment does |
| Compiler.GroupsSealed | src/lib.rs:104-121 | when the fragment does not mention the placeholder text, no group can hold or create an occurrence of it |
| Compiler.GroupsRepeat | src/lib.rs:104-121 | when the fragment mentions the placeholder text, every group does |
| Compiler.NewEntriesKeys | src/lib.rs:110-114 | the entries added by a run of passes are exactly the group names of the counters used, all bound to the placeholder's entry, and none when it does not capture |
| Compiler.RecordThenNew | src/lib.rs:110-120 | recording one pass and then the later ones records the whole range of counters |
| Compiler.StepKeepsOccurrence | src/lib.rs:104-119 | if the text and the next group both hold the placeholder text, the text still holds it after one `replacen` |
| Compiler.InnerLoopDiverges | src/lib.rs:104-121 | when every group contains the placeholder text, the inner loop as written exhausts any fuel |
| Compiler.InnerLoopIsTextLoop | src/lib.rs:104-121 | the inner loop ends exactly when the text-only loop does, with the same text and counter, and with one alias entry per capturing pass |
| Compiler.InnerLoopAgrees | src/lib.rs:104-121 | with sealed groups and one pass of fuel per occurrence, the inner loop ends with the tokenized result |
| Compiler.FirstReplacedIsScanned | src/lib.rs:88-104 | the first occurrence of `to_match` is the leftmost placeholder that the scanner found |
| Compiler.InnerLoopNoneIff | src/lib.rs:102-121 | for the scanned placeholder, the inner loop never ends when its fragment mentions its text, and otherwise ends with the tokenized result |
| Compiler.InnerLoopMoreFuel | src/lib.rs:104-121 | more fuel does not change an inner run that already ended |
| Compiler.InnerLoopEnded | src/lib.rs:102-121 | an inner run that ended had a fragment not mentioning the placeholder text, and produced the tokenized result |
| Compiler.Expand | src/lib.rs:88-122 | a returned state holds no placeholder and has a counter no smaller than the start; an unknown-pattern error names a name missing from the registry; expansion never reports a regex error |
| Compiler.ExpandRunSound | src/lib.rs:88-122 | whenever the outer loop as written ends, it ends as the tokenized reading says |
| Compiler.ExpandRunDiverges | src/lib.rs:88-122 | when the tokenized reading diverges, the loop as written exhausts any fuel |
| Compiler.ExpandRunMoreFuel | src/lib.rs:88-122 | more fuel does not change an outer run that already ended |
| Compiler.ExpandRunEnough | src/lib.rs:88-122 | when the tokenized reading returns, some fuel lets the loop as written return the same result |
| Compiler.ExpandRunWithMore | src/lib.rs:104-121 | fuel for the rest of the run, plus one pass per occurrence, is enough for the current turn too |
| Compiler.ReplaceAllNamed | src/lib.rs:110-120 | replacing all copies keeps every earlier alias entry, binds only fresh `name<i>` names, and binds them only to the placeholder's entry |
| Compiler.ExpandNamed | src/lib.rs:83-122 | a finished expansion never rebinds an earlier group, and every alias key is a name handed out before the final counter |
| Compiler.ExpandMoreBudget | src/lib.rs:86-92 | a larger budget changes the result only when the smaller one ran out |
| Compiler.Compile | src/lib.rs:82-126 | a compiled pattern was accepted by the regex engine and holds no placeholder; an unknown-pattern error names a name missing from the registry |
| Compiler.CompileGroupNames | src/lib.rs:110-114 | every alias-map key of a compiled pattern is a generated `name<k>` |
| Compiler.CompilePlain | src/lib.rs:88-125 | a text without placeholders goes to the regex engine unchanged, with an empty alias map, or gives the regex error |
| Compiler.CompileUnknown | src/lib.rs:97-100 | a leftmost placeholder whose name is not registered gives the unknown-pattern error for that name |
| Compiler.CompileSelfReference | src/lib.rs:102-121 | a leftmost placeholder whose fragment mentions its own text hangs `compile` |
| Compiler.CompileRunAgrees | src/lib.rs:82-126 | `compile` as written returns exactly what the model returns, and hangs exactly when the model diverges |
| Compiler.CompileRunSound | src/lib.rs:82-126 | a run of `compile` as written that ends returns what the model returns |
| Compiler.CompileRunComplete | src/lib.rs:82-126 | when the model returns, some fuel lets `compile` as written return the same |
| Scanner.RunEnd | src/lib.rs:15-17 | the greedy end of a run of word or alias characters: every character before it is in the class, and the one at it is not |
| Scanner.ParseAtSound | src/lib.rs:12-23 | what the anchored scanner returns is a placeholder of the grammar occupying exactly the returned span |
| Scanner.ParseAtComplete | src/lib.rs:12-23 | every placeholder of the grammar at a position is the one the anchored scanner returns there |
| Scanner.ParseAtCorrect | src/lib.rs:12-23 | the anchored scanner returns `(ph, e)` if and only if `ph` is a placeholder of the grammar spanning `[i, e)` |
| Scanner.FindFrom | src/lib.rs:88 | the result is the first placeholder at or after the start position, and no placeholder exists when it returns none |
| Scanner.Find | src/lib.rs:88 | the result is the leftmost placeholder, and there is none if and only if the text holds no placeholder |
| Scanner.PlaceholderUnique | src/lib.rs:12-23 | at most one placeholder, with one end, starts at any position |
| Scanner.FindIs | src/lib.rs:88 | a placeholder with none before it is what the search returns |
| Scanner.TextAlphabet | src/lib.rs:12-23 | placeholder texts hold only `%`, braces, `:` and alias characters |
| Scanner.TextOnePercent | src/lib.rs:12-23 | a placeholder text holds exactly one `%`, its first character |
| Scanner.NoPercentNoPlaceholder | src/lib.rs:13 | a text without `%` holds no placeholder |
| Scanner.PlaceholderIsOccurrence | src/lib.rs:88-102 | a placeholder in a text is an occurrence of its own `to_match` text |
| Strings.IndexOf | src/lib.rs:119 | the result is the leftmost occurrence, and none is returned if and only if the text does not occur |
| Strings.ReplaceFirstSplices | src/lib.rs:119 | `replacen(t, rep, 1)` cuts the text around the leftmost occurrence and splices `rep` in, and changes nothing when `t` is absent |
| Rewrite.SplicedClears | src/lib.rs:104-121 | with sealed replacements, the spliced text holds no occurrence |
| Rewrite.TextLoop | src/lib.rs:104-121 | when the text loop ends, the text is free of the placeholder text and the counter has not gone back |
| Rewrite.TextLoopRuns | src/lib.rs:104-121 | with sealed groups and enough fuel, the loop ends with the spliced text after one pass per occurrence |
| Extractor.Coerce | src/lib.rs:57-64 | no tag or an unknown tag keeps the text; under `int` the result is `Int` of the `i64` reading and fails exactly when that reading fails; under `float` it is `Float` of the float parser's result and fails exactly when the parser does |
| Extractor.CoerceIntRoundTrip | src/lib.rs:59 | every `i64`, captured as its decimal text under `int`, is extracted as itself |
| Extractor.Extract | src/lib.rs:54-67 | the loop fails exactly when some participating group of the visited order fails its conversion |
| Extractor.ExtractOk | src/lib.rs:54-67 | a finished loop has the starting keys plus one key per external name of a participating group, each value being a starting one or the conversion of a group with that external name |
| Extractor.Parse | src/lib.rs:46-69 | no match gives an empty map; otherwise the call fails exactly when some participating group fails, and the result's keys are exactly the participating external names, each holding one candidate's coerced value |
| Extractor.ParseOrderIrrelevant | src/lib.rs:54-65 | when groups sharing an external name never disagree, the map iteration order does not change the result |
| Extractor.SharedAliasEitherWins | src/lib.rs:54-65 | two participating groups with one external name and different values: each wins under some iteration order |
| Decimal.ValueOfShow | src/lib.rs:110 | the decimal text of a counter reads back as that counter |
| Decimal.ShowInjective | src/lib.rs:110 | different numbers have different decimal texts |
| Decimal.ShowValueOf | src/lib.rs:59 | a canonical digit string is the decimal text of its own value |
| Decimal.ParseI64 | src/lib.rs:59 | a parsed value fits in 64 bits and comes from a text of ASCII digits with at most a leading sign |
| Decimal.ParseI64Reads | src/lib.rs:59 | a sign (none, `+` or `-`), any leading zeros and the decimal text of `n` read as the signed value, exactly when it fits in 64 bits |
| Decimal.ParseI64Shape | src/lib.rs:59 | every accepted text is a sign, leading zeros and a decimal text, and its value is the signed value of that text |
| Decimal.ValueOfZeros | src/lib.rs:59 | leading zeros do not change the value of a digit string |
| Decimal.ParseShowI64 | src/lib.rs:59 | every 64-bit integer parses back from its own text |
| Decimal.ShowParseI64 | src/lib.rs:59 | a canonical digit string that parses prints back as itself |
| CompileFacts.LoneFound | src/lib.rs:88-104 | a lone placeholder between `%`-free texts is the one scanned, and the leftmost occurrence of its text |
| CompileFacts.LoneReplaced | src/lib.rs:104-121 | such a placeholder's text occurs once, and splicing replaces just that copy |
| CompileFacts.SingleReplaced | src/lib.rs:105-120 | replacing the one copy of a lone placeholder gives its group, counter 1, and at most one alias entry |
| CompileFacts.NoPercentExpanded | src/lib.rs:88 | a text without `%` is returned by the expander as it is |
| CompileFacts.SingleExpands | src/lib.rs:82-122 | a lone placeholder whose fragment holds no `%` expands in one turn to its group |
| CompileFacts.CompileSingle | src/lib.rs:82-126 | such a text compiles to one group, recording the placeholder's entry under `name0` exactly when it captures |
| CompileFacts.ExpandNeverClears | src/lib.rs:86-122 | when every registered fragment holds a placeholder, the expansion never returns a finished text |
| CompileFacts.ReplaceAllKeepsPlaceholder | src/lib.rs:104-121 | replacing a placeholder by a group around a fragment that holds a placeholder leaves a placeholder |
| CompileFacts.CompileNeverClears | src/lib.rs:82-126 | with such a registry, `compile` never returns a pattern for a text that holds a placeholder |
| Scenarios.FirstGroupName | src/lib.rs:85-110 | the first generated group is `name0` |
| Scenarios.WordAliased | src/lib.rs:109-116 | `%{A:x}` becomes `(?<name0>a+)` with the entry `name0 -> (x, none)` |
| Scenarios.WordTyped | src/lib.rs:109-116 | `%{A:n:int}` records the type tag, even with `with_alias_only` set |
| Scenarios.WordAliasOnly | src/lib.rs:106-108 | with `with_alias_only`, `%{A}` becomes `(?:a+)` and records nothing |
| Scenarios.WordBare | src/lib.rs:109-116 | without that flag, `%{A}` captures under its fragment name |
| Scenarios.WordUnknown | src/lib.rs:97-100 | an unregistered name is reported by name |
| Scenarios.UnknownTypeIsLiteral | src/lib.rs:17-21 | `%{A:x:bool}` is not a placeholder: it reaches the regex engine untouched, which alone decides between a pattern with no aliases and the regex error |
| Scenarios.CycleLookup | src/lib.rs:97-102 | in the cycle `A -> %{B}`, `B -> %{A}`, each name resolves to the other's placeholder, which does not mention its own |
| Scenarios.CycleExhausts | src/lib.rs:86-92 | a lone placeholder of that cycle uses up any budget and ends in the recursion-limit error |
| Scenarios.CycleFails | src/lib.rs:86-92 | `%{A}` with the cycle registry ends in the recursion-limit error |
| Scenarios.SelfReferenceHangs | src/lib.rs:104-121 | `%{A}` with `A -> x%{A}` hangs: the model diverges, and the loop as written exhausts any fuel |
| Scenarios.ParseI64Plus | src/lib.rs:59 | `+007` parses as 7 |
| Scenarios.ParseI64MinusZero | src/lib.rs:59 | `-0` parses as 0 |
| Scenarios.ParseI64Refused | src/lib.rs:59 | the empty text, a bare sign, two signs and a digit separator are refused |

## Left out

- Regex engine: `Regex::new` (src/lib.rs:124) and `captures` (src/lib.rs:49) are not defined here. They are the parameters `accepts` and `engine`. `engine` returns the captures of the named groups that took part in the first match.
- Float parsing: `parse::<f64>` (src/lib.rs:60) is the opaque parameter `parseFloat`, which returns IEEE-754 bits.
- `lazy_static!` initialisation of the scanner regex (src/lib.rs:25-27): replaced by the hand-written `Scanner`.
- Error message text (src/lib.rs:90, 94-95, 100, 124): only error kinds are modelled. The `name not found` / `pattern not found` errors at lines 94-95 cannot happen, because both groups always take part in a scanner match, so they have no error kind.
- `HashMap` iteration order in `parse` (src/lib.rs:54): a parameter. The properties hold for every order, and `Extractor.SharedAliasEitherWins` shows that the order can matter.
- Termination of the inner loop (src/lib.rs:104-121): the source does not guarantee it. The model makes the hang explicit as `Outcome.Diverges`, and relates it to the fuel-bounded `CompileRun`.
- Compiler.Compile: the group counter `index` is an `i32` in the source, and the model uses an unbounded `nat`. An overflow would need more than 2^31 replacements in one call.
- Test code (src/lib.rs:129-157) and the example programs: they print and assert nothing, and the example programs rely on fragments that the library does not register.
- Default pattern library: not modelled, because `Grok::default()` starts with an empty registry and lookup only consults it.
- The budget-exhaustion message formats the constant 1024; only the error kind `RecursionLimit` is modelled.
