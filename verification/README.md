# plap in Dafny

A model of `plap`, a single-header C library that parses command lines
(`include/plap.h`). A program declares a schema of positional slots and named
options, then hands `argc`/`argv` to `plap_parse_args`. The result lists the
typed positional entries and option entries, or reports a usage error.

The model follows the C code function by function, in these files:

- `wrappers.dfy`: `Option` and `Result`.
- `types.dfy` (module `PlapTypes`):
  - the records `PositionalDef`, `OptionDef`, `PositionalArg`, `OptionArg` and `Args`;
  - the value tags and the tagged union of a parsed value;
  - `streq`;
  - the `parse_as` switch shared by `plap_parse_positional` and `plap_parse_option`.
- `cursor.dfy` (module `Cursor`): the `ArgsWrap` cursor over argv, as a class
  whose `Next` moves the pointer in place.
- `schema.dfy` (module `Schema`): the schema builder, as the class `ArgsDef`.
  - The two definition tables are arrays that start at 16 slots.
  - A table doubles when its count reaches its size.
  - The class covers `plap_args_def`, `plap_program_desc`, `plap_positional`,
    `plap_option` and `find_option_def`.
- `paths.dfy` (module `Paths`): `strip_path_from_name`.
- `parser.dfy` (module `Parser`): the parse itself, in two forms.
  - The spec form: `ParseOptionSpec`, `Step`, `Scan` and `ParseSpec` state
    the left-to-right pass as functions.
  - The code form: `ParseOption`, `ConsumeOption`, `ConsumeToken`,
    `ScanTokens` and `ParseArgs` do the pass as the C code does. They move the
    cursor and set the `matched` flags in the option array.
  - Each method is proved to compute the spec form.
- `parser_facts.dfy` (module `ParserFacts`): what a successful parse
  guarantees.
  - Every argv token is consumed exactly once, which is why the result tables
    of size `argc` suffice.
  - Tokens are classified by their first character.
  - Positional entries follow the positional tokens in order.
  - Each option definition is matched at most once, so an option given twice,
    under either name, is never accepted.
  - The option entries are those of the option tokens.
  - Several worked command lines.
- `accessors.dfy` (module `Accessors`): `find_option`, `plap_get_option` and
  `plap_get_positional`, and how they meet the parse.

Parameters and abstractions:

- `atoi` is the function parameter `parseInt`.
- `atof` is kept symbolic: a `Double` value holds the text it was given.
- The process exits of the C code become error values:
  - `ParseError` for usage errors;
  - `DefinitionError` from `AddOption`.
- The spec form of the pass records, for the proofs only, the role of every
  argv token and the definition that each option entry matched.

Where the code and a plain reading of the library's contract differ, the model
follows the code.

- There are two "too few" failures:
  - `NotEnoughArgs` is checked before the scan (`include/plap.h:232`);
  - `NotEnoughPositional` is checked after it (`include/plap.h:256`).

  They print different messages, so they are kept as distinct errors.
- The check before the scan also fails when `argc == 0`. In C, `argc - 1` is
  converted to `size_t` in that comparison, so only the explicit
  `argc == 0` test catches an empty argv.
- A lone `-` and `--` are both empty options.
- A `-x` token looks up short names only, and `--x` long names only.
- A value token is taken unconditionally, even when it starts with `-`.

## Model

| member | source | states |
|---|---|---|
| PlapTypes.Coerce | include/plap.h:279-294 | INT gives atoi of the text, DOUBLE holds exactly the text given to atof, every other tag gives the text verbatim; the tag `t` is INT, DOUBLE or STRING accordingly |
| PlapTypes.StrEq | include/plap.h:306-311 | two strings are equal iff both are non-NULL and equal; NULL equals nothing, not even NULL |
| Cursor.ArgsWrap.Wrap | include/plap.h:488-495 | the cursor starts before argv[0] (pointer -1) with argc recorded, so the remaining tokens are all of argv |
| Cursor.ArgsWrap.Next | include/plap.h:497-503 | the pointer always advances by one, also past the end; the result is the token there or NULL once argc is reached, and is the head of the remaining tokens |
| Schema.FindOptionDef | include/plap.h:313-322 | the index of the first definition whose long name equals `l` or whose short name equals `sh`; none iff no definition matches |
| Schema.LookupIsUnambiguous | include/plap.h:427-430 | in a table where no definition collides with an earlier one, at most one definition matches a single-name lookup |
| Schema.RequiredCountBounds | include/plap.h:414 | the required count is at most the number of slots, and equals it iff every slot is required |
| Schema.RequiredCountSnoc | include/plap.h:414 | appending a slot adds one to the required count exactly when the slot is required |
| Schema.DefaultNameReadsBack | include/plap.h:402-403 | the label given to an unnamed slot is "arg" followed by decimal digits that read back as N |
| Schema.DecimalStringReadsBack | include/plap.h:402-403 | the decimal digits used in the default name "arg<N>" are non-empty, read back as N and have no leading zero |
| Schema.Grow | include/plap.h:415-418 | the grown table has the new size, and its first entries are those of the old one |
| Schema.Append | include/plap.h:415-419 | the entry lands at index count, after the old entries, and the table doubles exactly when the new count reaches its size |
| Schema.ArgsDef.constructor | include/plap.h:264-275 | an empty schema whose two tables have 16 slots each and no required positionals |
| Schema.ArgsDef.ProgramDesc | include/plap.h:138-156 | a given name or description replaces the stored one; an absent one leaves it as it was |
| Schema.ArgsDef.AddPositional | include/plap.h:395-420 | appends the slot, named "arg<N>" for the new count N when no name is given; the required count grows iff the slot is required; the table doubles when the count reaches its size; the option table is unchanged; the schema invariant is kept |
| Schema.ArgsDef.PushPositional | include/plap.h:414-419 | the bookkeeping after the slot is built: the table gains exactly that slot at the end, the required count grows iff it is required, the table doubles when the count reaches its size, and the invariant (free slot, required count) is kept |
| Schema.ArgsDef.AddOption | include/plap.h:422-451 | a NULL long name is an error; an option whose long name or non-NULL short name is already taken is an error naming the existing long name; otherwise an unmatched definition is appended, the table doubles when full, and no two options collide |
| Schema.ArgsDef.PushOption | include/plap.h:444-450 | given an option that collides with none in the table, the table gains exactly that option at the end, doubles when the count reaches its size, and stays free of collisions |
| Paths.SuffixStart | include/plap.h:212-219 | the backward scan stops just after the last `/` or `\` before the start position, or at 0 |
| Paths.StripPath | include/plap.h:210-221 | the result is the suffix of the path after its last separator, holds no separator, and is the whole path when there is none |
| Parser.PositionalFor | include/plap.h:276-304 | a declared slot gives its name and the coerced value; a token beyond the slots is a nameless verbatim string |
| Parser.ParseOptionSpec | include/plap.h:334-393 | plap_parse_option as a function of the token, the next argv index and the option table; a success names a definition of the table (its five outcomes are stated by ParseOptionCases) |
| Parser.ParseOptionCases | include/plap.h:334-393 | the five outcomes: `-`/`--` are empty options; unknown iff the lookup finds nothing; already supplied iff the definition is matched; missing value iff it needs one and argv is exhausted; otherwise the entry records the typed name form, finds the same definition again, and takes the next token as its value iff one is needed |
| Parser.Step | include/plap.h:247-254 | one turn of the loop never reads past argc; a positional token is one token and always succeeds; only an option can consume two tokens (itself and its value); a failure is an option token and one of the four option errors |
| Parser.Scan | include/plap.h:245-255 | the loop as a function from argv index `k` on: it fails only with one of the four errors of plap_parse_option |
| Parser.ParseSpec | include/plap.h:232-260 | NotEnoughArgs iff argv is empty or has fewer tokens after argv[0] than required slots; otherwise the pass's error if it fails; NotEnoughPositional iff the pass succeeds with fewer positional entries than required slots; success iff the pass succeeds with enough of them, and then the result is the pass's |
| Parser.StartAsWritten | include/plap.h:225-236 | as written, a NULL dereference iff argv is empty and no name is stored; the usage error iff argv is empty with a stored name or holds too few tokens; otherwise the shown name |
| Parser.StartAsWrittenDereferencesNull | include/plap.h:226-232 | as written, argc == 0 without a stored name reaches strip_path_from_name(NULL) before the arity check |
| Parser.Start | include/plap.h:226-236 | the arity check fails iff argv is empty or holds fewer tokens after argv[0] than required slots; otherwise the shown name is the stored one or argv[0] without directories |
| Parser.StartAgreesWhenDefined | include/plap.h:226-236 | on every input where the code as written does not dereference NULL, it agrees with Start |
| Parser.ParseOption | include/plap.h:334-393 | returns the outcome ParseOptionSpec gives; on success the found definition alone is marked matched, and the cursor moved by one exactly when a value was taken |
| Parser.ConsumeOption | include/plap.h:248-249 | an option token passed without its dash takes exactly the step of the pass, or fails with the error the pass fails with |
| Parser.ConsumeToken | include/plap.h:247-254 | one turn of the loop: the token is an option or is paired with the next positional slot, the slot counter stays min(entries, slots), and the cursor ends where the pass resumes |
| Parser.ScanTokens | include/plap.h:245-255 | the loop computes Scan from argv[1] on: the same entries or the same error, and the same `matched` flags |
| Parser.ParseArgs | include/plap.h:223-263 | plap_parse_args computes ParseSpec, including both arity checks, and leaves in the option table the flags the pass set |
| ParserFacts.FindIgnoresFlags | include/plap.h:313-322 | the definition lookup depends on the names only, not on the `matched` flags the parse sets |
| ParserFacts.ScanKeepsInv | include/plap.h:245-255 | each turn of the loop keeps the invariant: roles, positional entries and option matches agree with the tokens read so far |
| ParserFacts.ParseConsumesEachTokenOnce | include/plap.h:238-255 | every argv token has exactly one role, so positional plus option entries never exceed argc - 1 and fit the calloc(argc) tables |
| ParserFacts.ParseClassifiesTokens | include/plap.h:247-254 | a token not consumed as a value is an option iff it starts with `-`; an option names a declared definition and is followed by a value token iff that definition needs one |
| ParserFacts.ParsePositionalsInOrder | include/plap.h:251-253 | the k-th positional token gives the k-th positional entry, named and typed by the k-th slot when it exists, else a nameless string |
| ParserFacts.ParseMatchesEachOptionOnce | include/plap.h:355-359 | each option entry names an unmatched definition, no two entries name the same one, and afterwards exactly those definitions carry `matched`, besides any flagged before the parse |
| ParserFacts.ScanKeepsTokInv | include/plap.h:245-255 | each turn of the loop keeps the option tokens in step with the option entries: every token consumed as an option name names a definition some entry matched, every matched definition was named by such a token, and no two such tokens name the same definition |
| ParserFacts.ParseRejectsRepeatedOption | include/plap.h:341-359 | in a successful parse no two tokens consumed as option names look up the same definition, so the same option given twice, under either of its names, never gets through |
| ParserFacts.ParseEntriesFollowOptionTokens | include/plap.h:245-255 | the option entries are those the command line gave: some entry names definition `d` iff some argv token consumed as an option name names `d` |
| ParserFacts.ExampleFlagAndInteger | include/plap.h:223-263 | `prog --verbose 42` against slot `x` and `-v/--verbose` gives the flag under its long name and `x` = atoi("42") |
| ParserFacts.ExampleDuplicate | include/plap.h:355-358 | `prog -v --verbose 42` fails: the same option under its other name is already supplied |
| ParserFacts.ExampleUnknown | include/plap.h:351-354 | `prog 42 --quiet` fails with an unknown option |
| ParserFacts.ExampleMissingValue | include/plap.h:372-376 | `prog 42 -o` fails: the option needs a value and argv is exhausted |
| ParserFacts.ExampleValueIsNotPositional | include/plap.h:256-260 | `prog -o 42` passes the check before the scan, but `42` is the option's value, so the check after it fails |
| ParserFacts.ExampleExtraAndDashValue | include/plap.h:247-254 | an extra positional is a nameless string, and a value token may start with `-` |
| Accessors.FindOption | include/plap.h:323-332 | the index of the first entry recorded under `l` or `sh`; none iff no entry matches |
| Accessors.GetOption | include/plap.h:529-532 | the first option entry recorded under `sh` or `l`, or none iff there is no such entry |
| Accessors.GetPositional | include/plap.h:533-539 | the entry at `pos` iff there are more than `pos` positional entries |
| Accessors.EntryMatchesIffLookup | include/plap.h:323-332 | in a schema without collisions, an entry matches the names of a definition iff looking its typed name up finds that definition |
| Accessors.GetOptionFindsParsedDefinition | include/plap.h:529-532 | after a parse, querying with a definition's names finds an entry iff some entry names that definition, which is iff some argv token consumed as an option name names it; the entry found is the one for that definition |

## Left out

- Usage text: `plap_print_usage` and the longest-name fields it aligns by
  (`pos_longest_n`, `opt_longest_sh_n`, `opt_longest_ln_n`). The program name
  computed for it is modelled (`Start`) but not printed.
- Diagnostics on stderr and `exit(-1)`: every usage error is a `ParseError`
  result and every definition error a `DefinitionError` result, so the
  process is not modelled as ending.
- Memory management: `plap_free_args_def` (also called at the end of
  `plap_parse_args`), `plap_free_pos_def`, `plap_free_opt_def`,
  `plap_free_args`, `plap_free_option`, `calloc`/`strcpy` copies and
  `realloc`. Strings are values, and the result tables are sequences rather
  than `calloc(argc)` arrays; `ParseConsumesEachTokenOnce` states that the
  entries fit them.
- `atoi` and `atof`: `atoi` is the parameter `parseInt`, and `atof` is kept
  as the text it reads, because floating point is not modelled.
- Integer widths: counts and sizes are unbounded, so `size_t` and `int`
  overflow of the counters (and of the cursor's `args_pointer`) is not modelled.
- Parser.ParseOption: on an error path the contract does not state the option
  table or the cursor. The C code exits there, and may already have set the
  `matched` flag before a missing value is detected.
- Parser.ConsumeOption: on an error path the contract likewise does not state
  the cursor, for the same reason.
- Strings: argv tokens and names are Dafny strings (sequences of characters),
  not NUL-terminated byte strings. The only characters the code tests are
  `-`, `/` and `\`, and `strcmp` equality agrees with sequence equality, so
  no modelled behaviour depends on the encoding.
- The `plap_*_string`/`_int`/`_double` macros are not modelled separately.
  They are `AddPositional` and `AddOption` with a fixed `parseAs`.

## Findings

| source | as written | input that shows it | evidently intended | confidence | as-written member | corrected member |
|---|---|---|---|---|---|---|
| include/plap.h:226-236 | the name for usage text is computed with strip_path_from_name(argv[0]) before the check `argc == 0` | argc == 0 with no name set by plap_program_desc: argv[0] is NULL and strlen(NULL) is undefined behaviour | the arity check fails first with "Not enough arguments" | high, not executed | Parser.StartAsWrittenDereferencesNull | Parser.Start |
