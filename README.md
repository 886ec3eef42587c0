# libict-options in Dafny

A model of the command-line option library `ict::options`, with proofs about it.

Every option object registers itself in a global registry when it is
constructed. The registry has three parts:

- a map from short names (single characters) to options;
- a map from long names to options;
- the list of options in registration order.

`process(argc, argv)` has five stages:

1. it clears every option;
2. it builds the option string and long-option table for `getopt_long`;
3. it feeds each result of the scanner to the matching option's `setValue`;
4. it collects the arguments that are not options;
5. it returns 0, or -1 (unknown option), -2 (missing argument) or -3 (a value that could not be read).

`help` writes one line per option. It does not read the whole list; it reaches
each option through the name maps:

- the option's names;
- a parameter marker;
- its description in the requested language;
- its default.

Sub-option values (`key=value,key`) are read into a map through `getsubopt`,
against a whitelist of tokens.

The Dafny modules follow the source files:

- `Tokenizer` (`tokenizer.dfy`) models the token splitter: maximal runs of alphanumerics, `-`, `_` and `.`.
- `Options` (`options.dfy`) models the three option kinds `counter`, `single<T>` and `vector<T>`:
  - each is a class with the source's fields;
  - `SetValue` and `Clear` are proved against state-transition functions, and lemmas about repeated calls follow;
  - `interface *` is a closed union `OptRef` of the three kinds.
- `Getopt` (`getopt.dfy`) models the interface to `getopt_long`:
  - the option string syntax (`c`, `c:`, `c::`) and its decoding;
  - the long-option table;
  - the sequence of results the scanner reports.
- `Registry` (`registry.dfy`) models the registry class:
  - `registerOpt`'s naming rules, short candidate → long token → `param-k`;
  - the invariant the registry keeps: names are unique, valid and point to registered options;
  - `process` as a method over the option objects, proved equal to a functional specification (`Processed`).
- `Help` (`help.dfy`) models `help(ptr, os, locale)` and `help(os, locale)`:
  - each is a method returning the text it would write;
  - each is proved equal to a function (`HelpLine`, `HelpText`);
  - lemmas state which options appear, each once, and in which order.
- `Suboptions` (`suboptions.dfy`) models `subprocess` and `operator>>` of `suboptions<Tokens>`.
- `Ordering` (`ordering.dfy`) models the iteration order of `std::map`: ascending keys, with strings compared lexicographically.
- `TestCases` (`testcases.dfy`) works the sub-option cases of the library's own tests (source/suboptions.cpp:81-137) out on the model. Each literal text is taken apart by a general lemma (three comma-separated tokens, two lines, a bare or `key=value` element) and that lemma is then applied to the literal.
- `Wrappers` (`wrappers.dfy`) holds the `Option` type.

Modelling choices:

- The registry refers to an option by its index in the registration list. The source uses the pointer. Two names point to the same option exactly when their indices are equal, because the registry never holds an object twice.
- `std::istringstream s(val); s >> target` is an abstract `Extractor<T>`, a function `(text, old target) -> Option<T>`. `None` stands for an extraction that throws. The string overload of `interface::setValue` is `AssignText`, which takes the whole text. For `suboptions<Tokens>`, the extraction is `Suboptions.Extract`, which merges into the map already held.
- `counter_t` is `unsigned int`, so `++` wraps modulo 2^32 (`Options.Inc`).
- The `single<T>` and `vector<T>` constructors set `value` to the kind's `zero`, where the source default-initialises `Type value;`. No behaviour depends on that initial value: `process` clears every option before reading any, and `clear` resets the value first (source/options.hpp:289-295, 354-364). A fresh vector element, `Type v;` in the source, is likewise `zero`.
- One `Registry<T>` holds options whose values all have the one type `T`, where the source's registry mixes `single<int>`, `vector<std::string>` and so on. No behaviour is lost: each option carries its own extractor and zero, so `T` can be a datatype with one variant per value type.
- `getopt_long` is a parameter of `process`: a function from the argument vector, option string and long table to the scanner's results and the arguments after the options.

Notes on the source:

- The comment on `process` (source/options.hpp:65-69) lists the return codes 0, -1 and -2. The code also returns -3 when a `setValue` fails (source/options.cpp:156 and 161). The model follows the code: `Registry.Dispatch` yields -3.
- A failed extraction leaves the target as it was in the model, and `setValue` returns -1:
  - a standard stream does not throw by default, so for the built-in types the source's `catch` never fires;
  - the extractor is a parameter, so `Some(0)` for an unreadable number covers that behaviour too.
- `subprocess` is documented to return -1 on error, but it always returns 0, so the `invalid_argument` in `operator>>` is never thrown (`Suboptions.Subprocess`, `Suboptions.ReadSuboptions`).
- In `subprocess`, `k < tk.size()` compares a signed `int` with an unsigned size. So the -1 that `getsubopt` returns for an unknown key is not below the size, and an unknown key is skipped. The model states this as `0 <= k < |tk|`.

## Model

| member | source | states |
|---|---|---|
| Tokenizer.Tokenize | source/tokenizer.cpp:10-21 | The splitter appends to `tokens` exactly the tokens of the input: the non-empty runs between separator characters, in order. |
| Tokenizer.TokensAreWellFormed | source/tokenizer.cpp:2-21 | Every token is non-empty and consists of alphanumerics, `-`, `_` and `.` only. |
| Tokenizer.TokensConcat | source/tokenizer.cpp:10-21 | The tokens, concatenated, are the input with every separator removed, in the original order. |
| Tokenizer.TokensSplit | source/tokenizer.cpp:12-19 | A separator between two texts splits the tokens into those of the text before it followed by those of the text after it. |
| Tokenizer.TokensOfWord | source/tokenizer.cpp:12-20 | A text of token characters only is a single token, or no token when empty. |
| Tokenizer.TokensOfSeparators | source/tokenizer.cpp:12-20 | A text of separators only (including the empty text) has no tokens. |
| Options.Inc | source/options.hpp:217 | `++` on `counter_t` gives the successor modulo 2^32. |
| Options.Init | source/options.cpp:99-110 | `init` stores the names and default, keeps the localized descriptions in order, and appends the default description under the empty locale tag. |
| Options.LinesOfJoin | source/options.hpp:354-363 | The `getline` loop reads back, from lines joined by newlines, exactly those lines (none holding a newline and the last non-empty). |
| Options.JoinOfLines | source/options.hpp:354-363 | The lines the `getline` loop reads, joined with newlines, give back the text, up to a final newline. |
| Options.Counter.constructor | source/options.hpp:201-210 | A new counter has not been cleared: its count is 0 and it is marked as counting from the default. |
| Options.Counter.SetValue | source/options.hpp:212-219 | Returns 0. The first call after a clear restarts the count at 1; every later call adds one. |
| Options.Counter.Clear | source/options.hpp:223-230 | The count becomes the extracted default, or 0 without a default; the counter is re-marked as counting from the default. |
| Options.Single.SetValue | source/options.hpp:279-285 | Counts the call. Non-empty text is extracted into the value. -1 exactly when that extraction fails; empty text keeps the value and returns 0. |
| Options.Single.Clear | source/options.hpp:289-295 | No occurrences. The value is reset to zero/empty, then the default, if any, is extracted into it. |
| Options.Vector.SetValue | source/options.hpp:338-350 | Counts the call. The first call after a clear drops the default values. Non-empty text appends one extracted element; a failed extraction appends nothing and returns -1. |
| Options.Vector.Clear | source/options.hpp:354-365 | No occurrences; the values are one extracted element per line of the default, kept even when extraction fails; re-marked as holding the default. |
| Options.CounterCountsFromClear | source/options.hpp:212-230 | After a clear and n >= 1 occurrences, the count is n modulo 2^32, whatever the default was. |
| Options.CounterClearIdempotent | source/options.hpp:223-230 | Clearing a counter twice is clearing it once (for an extraction that does not read its target). |
| Options.SingleTextLastWriteWins | source/options.hpp:279-285 | A string `single` after a series of `setValue` calls counts them all (mod 2^32) and holds the whole text of the last non-empty one. |
| Options.VectorCollects | source/options.hpp:338-350 | After any series of calls, a vector counts them all (failed extractions included) and has dropped its old values if it held the default. It has appended one element per non-empty text whose extraction succeeds, in order; a failed extraction appends nothing. |
| Options.VectorFirstMatchDiscardsDefault | source/options.hpp:338-365 | After `clear` and at least one occurrence, none of the default values survives, even when the occurrence's extraction fails. The values are exactly those the successfully extracted non-empty texts supplied, in order. |
| Options.TypeOf | source/options.hpp:221-236 | `getType()` is `"counter"` exactly for counters and `"vector"` exactly for vectors, so the source's type-string tests select the kinds. |
| Options.SetValueOf | source/options.hpp:212-350 | The virtual `setValue` keeps each option's state of its own kind and returns only 0 or -1; a counter always returns 0. |
| Options.ClearForgetsState | source/options.hpp:289-365 | Clearing a single or a vector gives a state independent of the state before. |
| Options.SetAllOfKind | source/options.hpp:212-350 | A series of virtual `setValue` calls is, for each kind, that kind's own series of calls. |
| Getopt.DecodeEncodeShort | source/options.cpp:124-132 | The option string written from entries (character, then `:` or `::` for an argument) is read back by `getopt` as the same entries when no option character is a colon. |
| Registry.FindFreeShort | source/options.cpp:73-79 | Finds the first candidate character that is alphanumeric and not yet a short name, or -1. |
| Registry.FindFreeLong | source/options.cpp:81-87 | Finds the first candidate token that is not yet a long name, or -1. |
| Registry.FindFreeParam | source/options.cpp:88-96 | Finds the smallest k in 1..999 with `param-k` not yet a long name, or -1. |
| Registry.Name | source/options.cpp:70-96 | The naming part of `registerOpt` yields exactly the maps `AssignNames` describes. |
| Registry.ShortNaming | source/options.cpp:73-79 | No existing short name is taken over. At most one is added; it is an alphanumeric candidate of the new option. One is added exactly when some alphanumeric candidate was free. |
| Registry.LongNaming | source/options.cpp:80-96 | No existing long name is taken over. At most one is added for the new option; it is a candidate token or a `param-k`. One is added whenever a candidate token was free. |
| Registry.ParamFallback | source/options.cpp:80-96 | `param-k` (smallest free k) is used only when the option got neither a short nor a long name. An option left with no name at all means all 999 fallbacks were taken. |
| Registry.RegisterKeepsWellFormed | source/options.cpp:68-98 | Registering a new option keeps the registry invariant: short names alphanumeric, long names non-empty token strings, each naming a registered option, at most one of each per option, no option object twice. |
| Registry.Registry.Register | source/options.cpp:68-98 | `registerOpt` appends the option to the list, names it as `AssignNames` says, and keeps the invariant. |
| Registry.ShortKeys | source/options.cpp:124 | The short names are visited once each, in strictly ascending character order. |
| Registry.LongKeysAscending | source/options.cpp:133 | The long names are visited in strictly ascending lexicographic order. |
| Registry.ArgKindOf | source/options.cpp:126-142 | An option takes no argument exactly when it is a counter, and a required one exactly when it is not a counter and `isValueRequired()`. |
| Registry.ShortEntriesAscending | source/options.cpp:124-132 | The option string lists the short names in strictly ascending order. |
| Registry.ShortEntriesCover | source/options.cpp:124-132 | Every short name appears in the option string. |
| Registry.ShortSpecMeaning | source/options.cpp:118-132 | The option string starts with `:` and the scanner reads back from the rest exactly one entry per short name with its option's argument kind. |
| Registry.BuildShortSpec | source/options.cpp:118-132 | The loop builds exactly that option string. |
| Registry.LongTableAscending | source/options.cpp:133-143 | The long table lists the names in strictly ascending lexicographic order. |
| Registry.LongTableCovers | source/options.cpp:133-143 | Every long name has an entry in the long table. |
| Registry.BuildLongTable | source/options.cpp:133-144 | The loop builds exactly the long table, one entry per long name with its argument kind. |
| Registry.Target | source/options.cpp:153-161 | A short result names the option of its character in the short map, if any; only short and long results name an option, and always a registered one. |
| Registry.StepOf | source/options.cpp:151-171 | One result keeps every state of its option's kind; when it stops the loop, the code is -1, -2 or -3. |
| Registry.Dispatch | source/options.cpp:148-172 | The dispatch loop ends with one of 0, -1, -2, -3 and keeps every option's state of its own kind. |
| Registry.DispatchFold | source/options.cpp:148-172 | When the loop ends normally, each option's state is its cleared state after `setValue` of the arguments of the results naming it, in order; an option never named keeps its cleared state. |
| Registry.DispatchStops | source/options.cpp:151-168 | After results that did not stop the loop: -1 ends it with 0, `?` returns -1, `:` returns -2, keeping the earlier updates and ignoring everything after. |
| Registry.DispatchFails | source/options.cpp:153-161 | A `setValue` that fails returns -3 at once, keeping the earlier updates and that call's own update and ignoring everything after. |
| Registry.Leftovers | source/options.cpp:173-175 | The arguments after the options are collected in order. |
| Registry.Registry.ClearOptions | source/options.cpp:120-123 | Every registered option is cleared and nothing else changes. |
| Registry.Registry.RunDispatch | source/options.cpp:147-172 | The loop over the scanner's results leaves the options and returns the code as `Dispatch` says. |
| Registry.Registry.DispatchResult | source/options.cpp:151-171 | One pass of the loop does what `StepOf` says, to the options and to the control flow. |
| Registry.Registry.FindTarget | source/options.cpp:153-161 | The short-map and long-map lookups of a result give the option `Target` names. |
| Registry.Registry.SetOption | source/options.cpp:155-160 | The virtual `setValue` of one option changes that option's state only. |
| Registry.Registry.Process | source/options.cpp:116-178 | The registry's names and list are unchanged and the invariant holds. The options' states and the returned code are those of dispatching the scanner's results over the cleared states. The leftovers are the arguments after the options on a normal end, and empty otherwise. |
| Help.WriteNames | source/options.cpp:180-197 | Writes the option's short names as `-c`, then its long names as `--name`, each in map order, separated by commas. |
| Help.HelpNames | source/options.cpp:182-197 | An option with short name `c` and long name `s` in a well-formed registry is written as `-c,--s`. |
| Help.HelpNamesShortOnly | source/options.cpp:182-197 | An option with only a short name `c` is written as `-c`. |
| Help.HelpNamesLongOnly | source/options.cpp:182-197 | An option with only a long name `s` is written as `--s`. |
| Help.WriteMarker | source/options.cpp:199-206 | Writes `<mandatory param> ` or `<optional param> ` for a non-counter, as `isValueRequired()` says; nothing for a counter. |
| Help.WriteInLocale | source/options.cpp:208-218 | Writes the descriptions tagged with the locale, separated by spaces, and reports whether there was any. |
| Help.WriteDescriptions | source/options.cpp:207-229 | Writes the requested language's descriptions, or those of the empty tag when there are none. |
| Help.DescFallback | source/options.cpp:219-229 | For descriptions built by `init` with no translation into the locale and no untagged description, the line shows the default description. |
| Help.DescTranslated | source/options.cpp:208-218 | With a translation into a non-empty locale, the line shows exactly the translations, in order, and not the default description. |
| Help.WriteDefault | source/options.cpp:230-248 | Writes ` Default: "…".` when there is a default, a vector's default line by line, quoted and comma-separated; nothing otherwise. |
| Help.DefaultOfVector | source/options.cpp:231-247 | A vector whose default is given lines shows each of those lines quoted: the very values `clear` loads. |
| Help.WriteHelpLine | source/options.cpp:179-250 | `help(ptr, os, locale)` writes names, a space, the marker, the descriptions, the default and a newline. |
| Help.HelpOrderDistinct | source/options.cpp:251-265 | `help(os, locale)` shows no option twice. |
| Help.HelpOrderCovers | source/options.cpp:251-265 | An option is shown exactly when some short or long name refers to it. |
| Help.HelpOrderShortFirst | source/options.cpp:251-265 | Every option with a short name is shown before every option reachable only through long names. |
| Help.WriteHelp | source/options.cpp:251-265 | The text written is each reachable option's line once, in the order of the short map and then the long map. |
| Suboptions.Subprocess | source/suboptions.cpp:46-67 | Returns 0. The result is the output map updated by each whitelisted element of the input, up to its first NUL. |
| Suboptions.SubprocessLookup | source/suboptions.cpp:59-64 | A whitelisted key that occurs holds the value of its last occurrence (empty for a bare key). Every other key, present or absent, is as before. |
| Suboptions.SubprocessKeys | source/suboptions.cpp:59-64 | Every key of the result was already there or is a whitelisted token. |
| Suboptions.ReadSuboptions | source/suboptions.hpp:65-70 | `operator>>` reads one word and merges it into the map; it never fails. |
| Suboptions.ExtractKeeps | source/suboptions.hpp:65-70 | Reading sub-options into a map never fails and never removes a key already held. |
| TestCases.StreamTest | source/suboptions.cpp:85-98 | Reading `jeden,dwa=alfa,trzy=beta` against the whitelist `jeden,dwa,trzy` gives exactly three entries: `jeden` empty, `dwa` = `alfa`, `trzy` = `beta`. |
| TestCases.SingleOption | source/suboptions.cpp:99-110 | `-m ala=foo,kota=alfa,ma=beta` on the cleared `subparam1` counts one occurrence and leaves exactly `ala` = `foo`, `kota` = `alfa`, `ma` = `beta`; the default's `ala` is overridden. |
| TestCases.VectorOption | source/suboptions.cpp:111-123 | `-h ala=foo,kota=alfa,ma=beta` on the cleared `subparam2` drops both default elements and keeps one element with those three entries. |
| TestCases.SingleDefault | source/suboptions.cpp:124-129 | Cleared, `subparam1` holds its default: exactly one entry, `ala` = `nic`. |
| TestCases.VectorDefault | source/suboptions.cpp:130-137 | Cleared, `subparam2` holds two elements from the two lines of its default: first exactly `ala` = `nic`, then exactly `ma` = `koty`. |
| TestCases.DefaultLines | source/options.hpp:354-362 | The default `ala=nic\nma=koty` is read as the two lines `ala=nic` and `ma=koty`. |

## Left out

- The scanner `getopt_long` itself:
  - it is a parameter of `process`, and only its interface (option string, long table, results, remaining arguments) is modelled;
  - the global `optind`, `optarg` and `opterr` become parts of the scanner's result.
- `getsubopt`: modelled by its documented behaviour (`Suboptions.GetSubopt`), not by the C library's code.
- Extraction with `std::istringstream` (numbers, `double`, user types) is the abstract `Extractor<T>`. No concrete number parsing is modelled.
- Streams: `help` returns the text it would write instead of writing to an `std::ostream`. `help` is given the registry's maps and list as a `Tables` value, not the global singletons.
- The static singletons `getOptionMap()`, `getShortOptionMap()`, `getLongOptionMap()` and `getNotOption()` are the fields of one `Registry` object.
- `noOptions()` is reading the `notOption` field.
- `std::isalnum` is the "C" locale's ASCII test; other locales are not modelled.
- The terminating null entry of `longOptionsVector` is implied by the table's length.
- The `const char *` pointers into the map keys are modelled as the key strings.
- Each kind's constructor calling `init` and then `registerOpt(this)` is split in two: the constructor takes a `Descriptor` (`Options.Init`), and `Registry.Registry.Register` registers. The null-pointer test of `registerOpt` is left out because a Dafny reference is never null.
- The sub-option whitelist is a template parameter in the source (`suboptions<Tokens>`) and a string argument here.
- Registry.Registry.Process: requires every long-option result of the scanner to carry an `option_index` inside the long table. The source's `longOptionsVector.at()` would throw `out_of_range` otherwise; that exception is not modelled.
- Options.CounterClearIdempotent: proved only for extractions that do not read their old target, as the extraction of an `unsigned int` does not.
- Registry.LongNaming: states "a free candidate token gives a name" in one direction only. The converse fails because `param-k` can also give one (Registry.ParamFallback states when).
- Concurrency: the registry is global state and not thread-safe in the source. The model is single-threaded.
