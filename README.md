# gocommit — a Dafny model of its core

gocommit is a small command-line tool. It reads the staged git diff and asks
a local Ollama model for up to three commit-message suggestions. It lets
the user pick one by number or type their own, and then commits with it.
This project models the part of `main.go` that decides what happens once
the outside world has answered:

- **Parsing the model's reply** (`parseSuggestions`). The reply is trimmed,
  and a blank reply is an error. A JSON object with a non-empty `messages`
  list is normalized (see below) and returned. Any other reply is split
  into lines. Each line loses its leading bullet characters (`-`, digits,
  `.`, space) and is trimmed. If no line is left, the reply cannot be parsed.
- **Normalising the suggestions** (`normalizeMessages`). Every entry is
  trimmed. Empty entries and repeats are dropped, and the first occurrence
  of each message is kept, in order.
- **The choice dialogue** (`chooseMessage`, `parseChoice`, `promptEdit`).
  - It is a two-state machine over the lines typed so far.
  - A number from 1 to the number of suggestions picks that suggestion.
  - `e` or `E` switches to typing a message by hand.
  - Blank lines and invalid choices are passed over.
  - While editing, the first line that is not blank is the message,
    trimmed.
  - When the lines run out before a decision, the outcome is
    `NeedMoreInput`.
- **The surrounding steps of `main`**:
  - the `-n` count is clamped to 1..3;
  - the parsed list is cut to that count;
  - a blank staged diff is rejected;
  - an empty suggestion list is rejected;
  - the endpoint is joined to `/api/chat` without doubled slashes;
  - `envOr` reads a setting from the environment.

The operations that run step by step in the program are methods, each
proved equal to a specification function (the first, second, fourth and
fifth hold the loops; the others call them):

| method | specification function |
|---|---|
| `NormalizeMessages` | `Normalize` |
| `CollectLines` | `Fallback` |
| `ParseSuggestions` | `Parse` |
| `ChooseMessage` | `Run(Selecting, …)` |
| `PromptEdit` | `Run(Editing, …)` |
| `RunSession` | `Session` |

The lemmas state what the program promises about those functions.

Some library calls are parameters rather than models:

- the JSON decoder is `decode: string -> Option<seq<string>>`. It returns
  the `messages` list, or `None` when decoding fails.
- `fmt.Sscanf(s, "%d", &n)` is `scan: string -> Option<int>`.

Every property below holds for every such function.

One behaviour worth knowing falls out of the model. If the JSON reply holds
only blank messages, the parser succeeds with an empty list
(`ParseStructuredAllBlank`); the fallback path can never return an empty
list (`ParseFallback`). The empty list is then caught by the "no suggestions
returned" check in `main` (`Cli.Session`, `NoSuggestions`).

Files:

- `wrappers.dfy`: `Option` and `Result`.
- `text.dfy`: the string operations used: `TrimSpace`, `TrimLeft`,
  `TrimRight`, `Split` and `EqualFold` against `e`.
- `suggestions.dfy`: `parseSuggestions` and `normalizeMessages`.
- `selection.dfy`: `parseChoice`, `chooseMessage` and `promptEdit`.
- `cli.dfy`: the clamp, the truncation, the URL, `envOr`, the diff check
  and one whole session.

## Model

| member | source | states |
|---|---|---|
| Text.TrimSpace | main.go:198 | the result has no leading or trailing white space and is no longer than the input |
| Text.TrimSpaceBlank | main.go:198-201 | trimming gives the empty string exactly when the input is all white space |
| Text.TrimSpaceIdempotent | main.go:227 | trimming twice is trimming once |
| Text.TrimSpaceOfTrimmed | main.go:227 | a string without surrounding white space is left unchanged by trimming |
| Text.TrimLeft | main.go:212 | the result is no longer than the input and does not start with a character of the cut set |
| Text.TrimLeftSuffix | main.go:212 | the result is a suffix of the input, and every character removed is in the cut set |
| Text.TrimRight | main.go:155 | the result is no longer than the input, does not end with a character of the cut set, and starts where the input starts |
| Text.TrimRightPrefix | main.go:155 | the result is a prefix of the input, and every character removed is in the cut set |
| Text.EqualFoldE | main.go:252 | a line that reads as the edit command is a single non-space character; it is `e` or `E`, the only characters Unicode simple case folding makes equal to `e` |
| Text.Split | main.go:209 | splitting always yields at least one piece, even for the empty string |
| Text.JoinSplit | main.go:209 | joining the pieces back with the separator gives the original text |
| Text.SplitJoin | main.go:209 | splitting a join of separator-free pieces gives back those pieces |
| Suggestions.Normalize | main.go:223-235 | the normalized list is no longer than the input, and its entries are non-empty, trimmed and pairwise distinct |
| Suggestions.NormalizeMessages | main.go:223-235 | the loop with its `seen` map computes exactly the normalized list |
| Suggestions.NormalizeMembers | main.go:226-233 | a string is kept exactly when it is non-empty and is the trimmed form of some input |
| Suggestions.NormalizeOrder | main.go:226-233 | kept entries appear in the order of their first occurrence among the trimmed inputs |
| Suggestions.NormalizeUnique | main.go:223-235 | any duplicate-free list with those members in that order is the normalized list, so the three properties characterise it |
| Suggestions.NormalizeFixed | main.go:223-235 | a list already clean and duplicate-free is returned unchanged |
| Suggestions.NormalizeIdempotent | main.go:223-235 | normalizing twice is normalizing once |
| Suggestions.NormalizeExample | main.go:226-232 | `["a", " a ", "b"]` normalizes to `["a", "b"]`: a padded repeat is dropped |
| Suggestions.StripBullet | main.go:212 | a stripped line has no surrounding white space and is no longer than the line |
| Suggestions.Fallback | main.go:209-216 | the lines kept by the fallback are no more than the input lines, each non-empty and trimmed |
| Suggestions.CollectLines | main.go:210-216 | the fallback loop collects exactly the stripped, non-empty lines in order |
| Suggestions.FallbackAppend | main.go:211-216 | the fallback handles each line on its own: its result on two blocks of lines is the concatenation of its results |
| Suggestions.FallbackMembers | main.go:211-216 | a string is collected exactly when it is non-empty and is some line with its bullet stripped and trimmed |
| Suggestions.FallbackEmpty | main.go:217-219 | nothing is collected exactly when every line strips to the empty string |
| Suggestions.Parse | main.go:197-221 | the parser as a function: every successful result is clean and duplicate-free, and a success on the fallback path is never empty |
| Suggestions.ParseSuggestions | main.go:197-221 | the parser returns exactly the specified result: an empty-reply error, the normalized JSON messages, the "could not parse" error, or the normalized fallback lines |
| Suggestions.ParseEmpty | main.go:198-201 | the reply is rejected as empty exactly when it is all white space |
| Suggestions.ParseStructured | main.go:203-206 | a decodable reply with a non-empty message list yields that list, normalized |
| Suggestions.ParseStructuredAllBlank | main.go:203-206 | a JSON reply whose messages are all blank succeeds with an empty list |
| Suggestions.ParseCouldNotParse | main.go:208-219 | "could not parse" happens exactly when the reply is not blank, is not usable JSON, and no line survives the stripping |
| Suggestions.ParseFallback | main.go:208-220 | on the fallback path a success is never empty, holds exactly the non-empty stripped lines, and keeps their first-occurrence order |
| Suggestions.ParseStructuredExample | main_test.go:5-16 | the JSON reply with two messages parses to those two messages, the first being `feat: add x` |
| Suggestions.ParseFallbackExample | main_test.go:19-27 | the numbered two-line reply parses to `["add x", "fix y"]` |
| Suggestions.FallbackExample | main.go:211-216 | the lines `1. add x` and `2. fix y` are collected as `add x` and `fix y` |
| Suggestions.SplitExample | main.go:209 | the two-line reply splits into its two lines |
| Suggestions.StripExample | main.go:212 | the bullet `1. ` or `2. ` is stripped from a line |
| Selection.ParseChoice | main.go:267-279 | succeeds exactly when the text is non-empty, scans as an integer, and is between 1 and the count; then the index is that number minus one, below the count; empty text gives the "empty" error |
| Selection.ChoiceSelectsLabel | main.go:239-241 | the label `i + 1` printed before suggestion `i` parses to index `i` |
| Selection.Step | main.go:251-293 | while selecting, a line finishes the dialogue exactly when it is not `e` and is a valid choice, and then finishes with the suggestion numbered by that line, `msgs[k - 1]` for `k`; while editing, a line finishes with itself, trimmed and non-empty |
| Selection.Run | main.go:245-294 | the dialogue over the lines read so far settles on a suggestion or on a trimmed, non-empty typed line, always the latter while editing |
| Selection.PromptEdit | main.go:281-295 | the edit loop gives exactly the editing dialogue's outcome on the remaining lines |
| Selection.ChooseMessage | main.go:237-265 | the selection loop gives exactly the dialogue's outcome, handing over to the edit loop after `e` |
| Selection.RunChosen | main.go:237-295 | the message settled on is one of the suggestions or a trimmed, non-empty typed line; while editing it is always the latter |
| Selection.RunEditFirst | main.go:283-293 | editing settles on the first line that is not blank, trimmed |
| Selection.RunEditWaits | main.go:283-293 | editing asks for more input exactly when every line so far is blank |
| Selection.RunSkipsIgnored | main.go:255-262 | blank lines and invalid choices leave the selecting state as it was |
| Selection.RunSelects | main.go:258-263 | a line reading as the number `i + 1` ends the dialogue with suggestion `msgs[i]`, whatever follows |
| Selection.RunEditCommand | main.go:252-254 | a line reading `e` or `E` hands the rest of the input to the edit prompt |
| Selection.RunSettled | main.go:245-264 | once a message is settled, further input does not change it |
| Selection.SelectExample | main.go:258-263 | with three suggestions, `2` picks the second |
| Selection.SelectEndsExample | main.go:258-263 | with three suggestions, `1` picks the first and `3` the last |
| Selection.RejectExample | main.go:258-262 | with three suggestions, `5` is rejected and the next line is read |
| Selection.EditExample | main.go:252-254 | `E`, a blank line and then a padded message give that message, trimmed |
| Cli.EnvOr | main.go:309-314 | the result is the fallback when the value is blank, and otherwise the trimmed value, which is then non-empty and trimmed |
| Cli.EnvOrDefault | main.go:309-314 | the fallback is used exactly when the value is blank or trims to the fallback itself |
| Cli.DefaultsUnset | main.go:39-45 | with the variables unset, the defaults apply: chat URL `http://localhost:11434/api/chat`, model `llama3.1`, three suggestions |
| Cli.ClampCount | main.go:50-55 | the count lies in 1..3, is unchanged when already there, and is 1 below and 3 above that range |
| Cli.Truncate | main.go:179-182 | the result is the first `n` suggestions, or all of them when there are fewer |
| Cli.ChatUrl | main.go:155 | the URL ends in `/api/chat`, and what precedes it is no longer than the endpoint |
| Cli.ChatUrlBase | main.go:155 | what precedes `/api/chat` is the endpoint up to its trailing slashes, and does not itself end in a slash |
| Cli.ChatUrlTrailingSlashes | main.go:155 | adding any number of slashes to the endpoint gives the same URL |
| Cli.ChatUrlPlain | main.go:155 | an endpoint without a trailing slash is used unchanged |
| Cli.NoStagedChanges | main.go:65-67 | the staged diff counts as empty exactly when it is all white space |
| Cli.Offered | main.go:175-182 | the offered list fails exactly when the parse fails; on success it is the first the smaller of the parsed length and the clamped count parsed suggestions, clean and duplicate-free |
| Cli.Session | main.go:57-90 | a session stops with "no staged changes" exactly when the diff is blank; passes a parse error through exactly when the diff is not blank and the parse fails; stops with "no suggestions returned" exactly when the diff is not blank and the offered list is empty; reaches the dialogue only with a non-empty offered list; a committed message is non-empty and trimmed; a committed message is the one the dialogue chose, and the session waits for input exactly when the dialogue does |
| Cli.RunSession | main.go:50-90 | the steps of `main` in order (clamp, diff check, parse, cut, empty check, dialogue) give exactly the specified session outcome |
| Cli.OfferedBounds | main.go:175-182 | exactly the smaller of the parsed length and the clamped count suggestions are offered, never more than 3 and possibly none, clean, distinct, and a prefix of the parsed list |
| Cli.SessionCommitted | main.go:65-90 | a committed message is non-empty and trimmed, the staged diff was not blank, and the message is an offered suggestion or a typed line, trimmed |

## Left out

- The git subprocesses (`ensureGitRepo`, `stagedDiff`, `stagedDiffStat`,
  `gitCommit`) are not modelled. The staged diff is a parameter of the
  session, and the commit itself is the `Committed` outcome.
- The HTTP exchange with Ollama is not modelled: the request body and its
  JSON schema, the client timeout, the status check and the decode of the
  response envelope. The reply's content is a parameter of the session.
  So an HTTP or decode error, which ends `main` with an error, has no
  outcome here.
- `buildPrompt` is not modelled. It only formats text for the model.
- Flag parsing is not modelled, nor the `-timeout` flag. The count is an
  integer parameter, and `EnvOr` takes the environment's value as a
  parameter.
- The printed output is not modelled: the numbered list, the prompts, the
  "Invalid choice" message and `Committed:`.
- The prompt always says "Choose 1-3", whatever the number of suggestions.
  Only the range actually accepted is modelled.
- The internals of `json.Unmarshal` and `fmt.Sscanf` are not modelled.
  They are the `decode` and `scan` parameters.
- Read errors from standard input ("read input") are not modelled.
  Standard input is the finite list of lines typed so far.
- End of input is not modelled. At end of input the Go loops keep reading
  empty lines forever; here that is the `NeedMoreInput` outcome.
- Text.TrimSpace: Go trims every Unicode white-space character. The model
  trims only the ASCII ones: space, tab, newline, carriage return,
  vertical tab and form feed.
- Text.Split: Go's strings work on bytes. The model works on characters,
  which agrees for the ASCII cut sets and separators used here.
- Suggestions.StripBullet strips every leading digit, as the program does.
  So a message that itself starts with a number, such as `1. 404 page`,
  keeps only `page`. The model reproduces this rather than correcting it.
