# sc-test runner and Remitely scraper, modelled in Dafny

The repository is a small Node.js program. It runs named "scraper" functions one
after another and stops the whole process at the first problem. This project
models its two precise pieces:

- **Selection and dispatch (`index.js`).** The `SCRAPERS` environment variable
  becomes an ordered plan. Unset or empty means `'*'`, and the exact string
  `'*'` means every registry key in registry order. Anything else is split on
  `,` and each piece is trimmed. The plan then runs strictly in order and stops
  at the first unknown name or the first failing scraper, with exit status 1.
  Exit status 0 and the success report come only after every entry has
  succeeded.
- **The Remitely scraper (`scrapers/remitely.js`).** The page title comes from
  `/<title>(.*?)<\/title>/i`. The pacing wait is `Math.max(0, 20000 - elapsed)`.
  Errors go through a catch-log-rethrow boundary.

Files (one module each):

- `common.dfy` (`Common`): `Option`, and `Outcome`, which is what awaiting a
  scraper yields (`Ok` or `Fail(message)`).
- `strings.dfy` (`JsStrings`): JavaScript `split` with a one-character
  separator, `join`, and `trim` with ECMAScript's whitespace and line-terminator
  set.
- `selection.dfy` (`Selection`): the variable's default and the plan parser.
- `runner.dfy` (`Runner`): the registry, the specification `RunSpec`, the loop
  `RunPlan` proved equal to it, and the entry point `Execute`.
- `remitely.dfy` (`Remitely`): the regular-expression search, the pacing
  arithmetic and the scraper body `Scrape`.

Inputs stand in for the outside world:

- The environment variable is an `Option<string>` (`None` means unset).
- The registry is a key sequence in insertion order plus a map from each name
  to the `Outcome` that awaiting it yields.
- The HTTP exchange is a `FetchResult`: a response with status, status text and
  body, or a rejection with a message.
- The clock is the integer `elapsed`, read at `scrapers/remitely.js:28`.
- `process.exit(n)` becomes a returned `Exit` value and an exit code.

Nothing checks `response.status` or `response.ok`, so a 4xx or 5xx response
still counts as success. Only a rejected `fetch` or `text()` fails the scraper
(`Remitely.Scrape`).

## Model

| member | source | states |
|---|---|---|
| `Selection.Directive` | index.js:4 | An unset variable and the empty string both become `'*'`. Any other value is kept as it is. The result is never empty. |
| `Selection.UnsetOrEmptyMeansAll` | index.js:4-13 | Unset, empty and `'*'` all give the same plan: the registry keys, in registry order. |
| `Selection.SelectPlan` | index.js:4-19 | Unset, empty or `'*'` gives the registry keys in order. Any other value gives commas + 1 entries, and entry i is the trim of piece i. |
| `Selection.ParsePlan` | index.js:11-19 | Exactly `'*'` gives the registry key sequence unchanged. Any other directive gives one entry per comma-separated piece (commas + 1), and entry i is the trim of piece i. |
| `Selection.TrimAll` | index.js:17 | `.map(s => s.trim())`: same length, entry i is the trim of piece i. |
| `Selection.PlanIsTrimmedPieces` | index.js:17 | For a non-sentinel directive, take any list of comma-free pieces whose comma-join is the directive: the plan is those pieces trimmed, in order, with duplicates and empty pieces kept. |
| `Selection.PlanPiecesRebuildDirective` | index.js:17 | Conversely, some comma-free pieces that join back to the directive give the plan when trimmed. |
| `Selection.PlanEntriesAreClean` | index.js:17 | Every entry of a comma-list plan has no comma and is already trimmed. |
| `Selection.PaddedSentinelIsAName` | index.js:11-17 | `" * "` is not the sentinel. It becomes the one-name plan `["*"]`. |
| `Selection.CommaListExample` | index.js:17 | `"a, b ,c"` gives `["a", "b", "c"]`. |
| `Selection.DuplicatesAndEmptiesKept` | index.js:17 | `"x,,x"` gives `["x", "", "x"]`. |
| `Selection.TrimPadded` | index.js:17 | One space on each side of a name is trimmed away. |
| `Selection.TrimOfBare` | index.js:17 | A string with no whitespace at either end is its own trim. |
| `JsStrings.Split` | index.js:17 | `split(',')` gives one more piece than there are separators, and no piece contains the separator. |
| `JsStrings.JoinSplit` | index.js:17 | Joining the pieces with the separator gives back the original string. |
| `JsStrings.SplitJoin` | index.js:17 | Splitting the join of separator-free pieces gives back those pieces, so the split is unique. |
| `JsStrings.SplitNoSeparator` | index.js:17 | A string without the separator splits into itself alone. |
| `JsStrings.SplitAfterPiece` | index.js:17 | A separator-free head followed by the separator becomes the first piece. |
| `JsStrings.TrimStartSpec` | index.js:17 | The leading part that `trim` removes is all whitespace, and what remains does not start with whitespace. |
| `JsStrings.TrimEndSpec` | index.js:17 | The trailing part that `trim` removes is all whitespace, and what remains does not end with whitespace. |
| `JsStrings.Trim` | index.js:17 | `s.trim()` gives a slice of the input with only whitespace around it. The slice, unless empty, does not start or end with whitespace. |
| `JsStrings.TrimIsTrimOf` | index.js:17 | Stripping leading and then trailing whitespace meets that definition. |
| `JsStrings.TrimmedAtUnique` | index.js:17 | Any two slices with that property are the same string. |
| `JsStrings.TrimUnique` | index.js:17 | Any string with that property is the result of `trim`, so the property defines it. |
| `JsStrings.TrimIdempotent` | index.js:17 | Trimming twice gives the same result as trimming once. |
| `JsStrings.TrimKeepsAbsent` | index.js:17 | `trim` only removes characters, so it never introduces a comma. |
| `Runner.ExitCode` | index.js:29-37 | Exit status 0 exactly for the success report, and 1 otherwise. |
| `Runner.RunSpec` | index.js:22-38 | The names invoked always form a prefix of the plan. |
| `Runner.FirstProblemNotFound` | index.js:23-34 | If every name before index i is found and succeeds, and name i is unknown, then exactly the names before i are invoked and the run ends with `NotFound` for name i. |
| `Runner.FirstProblemFailed` | index.js:23-30 | If every name before index i is found and succeeds, and operation i fails with message m, then names 0..i are invoked and the run ends with `Failed(name i, m)`. |
| `Runner.CompletedIffAllSucceed` | index.js:23-37 | The success report is reached if and only if every plan entry is found and succeeds. In that case every entry has been invoked. |
| `Runner.FailureIsFirstProblem` | index.js:23-35 | A failed run always ends at a problem. For `NotFound`, the next plan entry is unknown. For `Failed`, the last name invoked failed, and its own message is reported. Every entry before it succeeded. |
| `Runner.AllPlanFindsEveryName` | index.js:11-13 | With a well-formed registry, the `'*'` plan never stops on an unknown name. |
| `Runner.AllPlanInvokesEachOnce` | index.js:11-26 | Registry keys are unique, so the `'*'` plan never invokes a scraper twice. |
| `Runner.RunPlan` | index.js:22-38 | The loop invokes names strictly in order, one after another, and returns exactly `RunSpec`'s trace and ending. The trace is a prefix of the plan. The ending is success exactly when the whole plan ran and every entry succeeded. |
| `Runner.Execute` | index.js:4-38 | The plan is `SelectPlan` of the variable. The run is `RunSpec` of that plan. Exit code 0 exactly when every entry ran and succeeded. |
| `Runner.SecondFailsScenario` | index.js:17-30 | With `x` succeeding and `y` failing, `"x,y"` invokes `x` and then `y`, and ends with `Failed("y", m)`. |
| `Runner.UnknownNameScenario` | index.js:24-33 | With only `x` registered, `"z"` invokes nothing and ends with `NotFound("z")`. |
| `Runner.UnsetRunsAllInOrder` | index.js:4-37 | With the variable unset and registry `a`, `b`, the run invokes `a` and then `b`, and completes. |
| `Remitely.FindClose` | scrapers/remitely.js:22 | The lazy `(.*?)` stops at the nearest `</title>` (any letter case) reachable without crossing a line terminator. It finds none exactly when no such `</title>` exists. |
| `Remitely.FindTitle` | scrapers/remitely.js:22 | The search picks the earliest start position where the whole pattern matches. |
| `Remitely.ExtractTitle` | scrapers/remitely.js:22-25 | No title is reported exactly when the pattern matches nowhere. A reported title is the text between the earliest matching `<title>` and the nearest `</title>` after it on the same line. |
| `Remitely.EarliestMatchIsTitle` | scrapers/remitely.js:22 | Conversely, the earliest match, with its nearest close tag, is the title extracted. |
| `Remitely.TitleHasNoLineTerminator` | scrapers/remitely.js:22 | The captured title contains no `\n`, `\r`, U+2028 or U+2029. |
| `Remitely.NoCloseWithoutBracket` | scrapers/remitely.js:22 | No `</title>` begins inside a stretch that has no `<`. |
| `Remitely.CaseInsensitiveExample` | scrapers/remitely.js:22 | `<TITLE>Remitly</Title>` gives the title `Remitly`. |
| `Remitely.EarliestNearestExample` | scrapers/remitely.js:22 | `<title>a</title><title>b</title>` gives `a`. |
| `Remitely.Max` | scrapers/remitely.js:29 | `Math.max`: the result is at least both arguments and equals one of them. |
| `Remitely.RemainingTime` | scrapers/remitely.js:28-29 | The remaining time is never negative. It is 0 exactly when elapsed ≥ 20000 ms, and at most 20000 when elapsed ≥ 0. Elapsed plus remaining reaches the 20000 ms floor, or stays at elapsed once past it. |
| `Remitely.ResponseLogShape` | scrapers/remitely.js:6-36 | The log of a resolved request starts with the banner, status and length lines and ends with the completion line. A title line appears exactly for the title found. The processing notice and the wait appear together, exactly when time remains, for that long. No error line appears. |
| `Remitely.Scrape` | scrapers/remitely.js:5-41 | The scraper succeeds exactly when the request resolves, whatever the HTTP status. A rejection logs the banner and one error line and is rethrown with its message unchanged. A resolved request logs exactly, in order: banner, status, length, the title line if a title is extracted, the processing notice and the wait if the remaining time is positive, and the completion line. |

## Left out

- Network behaviour of `fetch` and `response.text()`: both are replaced by the `FetchResult` input. A rejection of either one is `Rejected(message)`.
- `Date.now`, `setTimeout` and real waiting: the elapsed time is an integer input, and the wait is a `Wait(ms)` event.
- The total-time line (`scrapers/remitely.js:35-36`) and the seconds shown in the processing notice: they use floating-point `toFixed`, which is not modelled.
- The wording of every `console.log` and `console.error` line: the scraper's lines are abstract `Event`s. The runner's three informational lines (`index.js:6`, `14`, `18`) are not modelled.
- `process.exit` as real termination: the runner returns an `Exit` value and an exit code instead.
- async and Promise mechanics: execution is sequential, so each `await` is an ordinary step.
- JavaScript property lookup on the registry object (inherited keys such as `toString`, key order for integer-like names): the registry is an abstract map with an explicit insertion-ordered key list.
- The registry module `scrapers/index.js` is not part of this model. Which scrapers are registered is an input.
- The other scraper variants are not part of this model.
- Strings are sequences of Unicode scalar values, but JavaScript counts UTF-16 code units. `html.length` (logged as `ContentLength`) therefore differs for characters outside the Basic Multilingual Plane. The title chosen and its text are unaffected, since every tag character and line terminator is a single code unit. Match positions are not: JavaScript counts them in code units.
- Each registry name has one fixed `Outcome` for the whole run. In the program, a name listed twice in the plan (`"remitely,remitely"`) is awaited twice, and each call makes a new request, so the first call can succeed and the second fail. The model cannot express that run.
- The Docker usage comments at the end of `index.js`.
- Remitely: the regular-expression example with a line break between the tags is covered only by the general lemma `TitleHasNoLineTerminator`, not by a worked example.
