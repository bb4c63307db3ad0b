# Trivia plugin slash-command engine

A Dafny model of the `/trivia` slash-command engine of the Mattermost trivia
plugin (`server/command.go`). It covers the whole path of one command line:

- **Tokenising.** `strings.Fields` splits the line into a command word, an action and parameters (`Command.Tokenize`). A line whose first field is not `/trivia` is ignored.
- **Validation.** Each action has an arity rule (`Validation.Validate`, tied to the table `Validation.Registry`).
- **Dispatch.** The action switch (`Command.Route`, `Command.ExecuteCommand`) sends each action to a handler, posts the help for an empty action, and replies "Unknown action" to anything else.
- **Scan handlers.** Preview (`Welcome.Preview`) matches a team name against the comma-separated, trimmed parts of each configured welcome message's team name. List (`Welcome.List`) shows the distinct whole team names.
- **Store handlers.** Set, get and delete (`Welcome.SetWelcome`, `Welcome.GetWelcome`, `Welcome.DeleteWelcome`) work on the per-channel welcome text. It is kept in the plugin key-value store under the channel id, because the key prefix is empty.

The host is a value, `Host.Host`. It holds:

- the store, as a `map<string, string>`;
- the configured welcome messages;
- the result of the channel lookup;
- the error, if any, that each of `KVGet`, `KVSet` and `KVDelete` reports.

A command produces a `Host.Execution`. Either it completes with the ephemeral posts in order, the host calls in order and the store afterwards, or it crashes. The Go code panics in two places, and the model makes both explicit faults:

- `split[0]` on a blank line;
- `strings.SplitN(...)[1]` on a line without `set_channel_welcome`.

`previewWelcomeMessage` is an uninterpreted parameter, `Welcome.Previewer`. It returns an error text or success. It is a pure function of the team name and the welcome message, so two matching parts of one message (a team name such as `b, b`) always get the same answer.

The routing is modelled exactly as written, not as the action names suggest:

- `create` previews a team;
- `list_quizes` lists teams;
- `list_questions` sets the channel welcome;
- `add_question` gets it;
- `delete_question` and `start` both delete it;
- `delete_quiz` passes validation but has no branch, so it gets "Unknown action delete_quiz".

Some of the code's behaviour is easy to misread; the model follows the code:

- A blank or all-white-space line does not yield an empty command. `split[0]` panics, which is `Host.BlankCommand`.
- After a successful lookup of a channel that is not direct, set on a line without `set_channel_welcome` panics (`Host.MissingWelcomeMarker`). It does not store an empty text. A failed lookup or a direct channel gets its reply before the marker is read.
- What set stores, and what a later get shows, is the trimmed text after the first `set_channel_welcome`, not the raw parameters.
- The posted help turns every `|` of `commandHelp` into a backtick (server/command.go:234).
- The list action is spelled `list_quizes`.

Go's `unicode.IsSpace` is modelled exactly, on code points, as the set `Strings.SpaceChars`. The other Go library functions the engine uses are written out in `Strings`, each with its own contract. `Fields`, `TrimSpace` and `Split` also have lemmas that pin them down on every input.

## Model

| member | source | states |
|---|---|---|
| Strings.Fields | server/command.go:193 | every field is non-empty and holds no white space |
| Strings.FieldsOfBlank | server/command.go:193-194 | a line has no fields exactly when it is blank, which is when `split[0]` panics |
| Strings.FieldsKeepNonSpace | server/command.go:193 | the fields, glued together, are exactly the non-space characters of the line, in order |
| Strings.FieldsSkipSpace | server/command.go:193 | leading white space does not change the fields |
| Strings.FieldsOfJoin | server/command.go:193 | round trip: words joined by single spaces split back into the same words |
| Strings.FieldsOfWordThenSpace | server/command.go:193 | a word followed by any run of one or more white-space characters is one field, and the fields of the rest follow |
| Strings.FieldsOfMixedSpace | server/command.go:193 | a tab, two spaces or a trailing newline separate two words just as one space does |
| Strings.VisibleIsWord | server/command.go:193 | a non-empty run of visible ASCII characters has no white space, so `strings.Fields` keeps it whole |
| Strings.TrimSpace | server/command.go:143 | the result is a slice of the input with only white space cut from each end, and it neither starts nor ends with white space |
| Strings.TrimSpaceOf | server/command.go:89 | trimming white space around a trimmed text gives that text back |
| Strings.TrimSpaceIdempotent | server/command.go:143 | trimming twice is trimming once |
| Strings.Split | server/command.go:87 | there is at least one piece, and no piece holds the separator |
| Strings.JoinSplit | server/command.go:87 | round trip: joining the pieces with the separator rebuilds the team name |
| Strings.SplitJoin | server/command.go:87 | round trip: splitting separator-free pieces joined with the separator gives the pieces back |
| Strings.IndexFrom | server/command.go:142 | the first occurrence of the separator at or after a position, or none when there is no occurrence from there on; this is the search `SplitN` does |
| Strings.SplitN2 | server/command.go:142 | one piece (the whole text) exactly when the separator is absent; otherwise the text before its first occurrence and the text after it |
| Strings.ReplaceChar | server/command.go:234 | same length; each `from` becomes `to` and every other character is kept |
| Strings.ReplaceCharRemoves | server/command.go:234 | after replacing with a different character, no `from` is left |
| Validation.Validate | server/command.go:53-82 | a reason is returned exactly when the action has a rule and the parameter count breaks it, and it is that rule's reason |
| Validation.ValidateRejectsExactly | server/command.go:53-78 | the rules action by action: create needs 2; list_quizes 0; list_questions and start 1; add_question and delete_question at least 2 |
| Validation.ValidateAcceptsUnruled | server/command.go:79-81 | any action without a rule is accepted with any parameters |
| Validation.DeleteQuizAndEmptyAccepted | server/command.go:53-82 | `delete_quiz` and the empty action pass with any parameters |
| Host.WelcomeKey | server/command.go:145 | the welcome key of a channel is its id, since the prefix is empty |
| Welcome.ScanParts | server/command.go:88-98 | the inner loop posts only the team name, except that a failing preview's error comes last, after at least one name; it posts something exactly when a preview ran |
| Welcome.ScanPartsIsWalk | server/command.go:88-98 | the inner loop is the walk over the entry once per matching part: each matching part posts the name before its preview, and the first failing preview posts its error and stops |
| Welcome.ScanEntries | server/command.go:86-99 | the outer loop keeps the same shape over all entries: team names only, then the stopping error if there is one |
| Welcome.Preview | server/command.go:84-104 | the posts are a walk over every matching (entry, part) pair in order, followed by the not-found notice exactly when nothing matched |
| Welcome.ScanEntriesIsWalk | server/command.go:86-99 | the nested loops over entries and comma-separated parts equal one walk over the flat list of matches |
| Welcome.MatchesMembers | server/command.go:86-90 | an entry is matched exactly when some trimmed comma-separated part of its team name equals the team |
| Welcome.WalkAllSucceed | server/command.go:88-97 | when every preview succeeds, each match posts the team name once and there is no early break |
| Welcome.WalkStopsAtFirstError | server/command.go:92-95 | the first failing preview posts its error after the names posted so far, and ends the scan |
| Welcome.WalkPosts | server/command.go:91-93 | every post of the scan is the team name or a preview error |
| Welcome.PreviewNotFound | server/command.go:101-103 | "team `X` has not been found" is posted exactly when no entry part names the team |
| Welcome.PreviewScenario | server/command.go:84-104 | with entries `a,b` and `c`: `b` matches only the first entry and posts its name once; a name outside all three gets only the not-found notice |
| Welcome.Distinct | server/command.go:115-118 | the result has no repeats and holds exactly the elements of the input |
| Welcome.List | server/command.go:106-126 | no entries gives the no-messages notice; otherwise the header and one bullet per distinct whole team name, each exactly once |
| Welcome.TextAfterMarker | server/command.go:142 | none exactly when `set_channel_welcome` is absent; otherwise the text after its first occurrence |
| Welcome.SetWelcome | server/command.go:128-152 | crashes exactly when the lookup finds a non-direct channel and the marker is absent; refuses direct channels; on success stores and reports the trimmed text under the channel key |
| Welcome.SetWelcomeFrame | server/command.go:128-152 | a completed set posts one message and changes no other key; a failed lookup, a direct channel or a store error changes nothing |
| Welcome.GetWelcome | server/command.go:154-168 | one read of the channel key, store unchanged, one post; "not set yet" exactly when the key is absent; otherwise the stored text as it is, after "Welcome message is:" and a newline |
| Welcome.DeleteWelcome | server/command.go:170-190 | reads first and calls `KVDelete` only when the key is present; removes that key and no other; reports the deletion exactly when it removed the key |
| Welcome.SetErrorsStop | server/command.go:128-149 | a failing channel lookup or `KVSet` posts its error and nothing else, makes no later call and leaves the store unchanged |
| Welcome.ReadErrorsStop | server/command.go:154-187 | a failing `KVGet` or `KVDelete` posts its error and nothing else, makes no later call and leaves the store unchanged |
| Welcome.SetWelcomeCalls | server/command.go:128-152 | set makes the channel lookup first, and its only other call is a write of the channel's key |
| Welcome.SetStores | server/command.go:142-151 | on a healthy host with the marker present, set completes and maps the channel key to the trimmed text |
| Welcome.SetThenGet | server/command.go:128-168 | round trip: the text set reports storing is the text a later get shows |
| Welcome.SetOverwrites | server/command.go:142-151 | last write wins: setting twice stores what setting only the second time stores |
| Welcome.SetThenDelete | server/command.go:128-190 | after a set, delete reports the deletion and removes exactly that key, and a later get reports nothing set |
| Welcome.DeleteStored | server/command.go:184-189 | deleting a present key with no store error removes it and reports the deletion |
| Command.Tokenize | server/command.go:193-202 | none exactly for a blank line; otherwise command, optional action and parameters concatenate back to the fields; no action means no parameters |
| Command.TokenizeJoin | server/command.go:193-202 | round trip: words joined by spaces tokenise back into the same command, action and parameters |
| Command.TokenizeOfFields | server/command.go:193-202 | a line whose fields are a command, a word action and parameters tokenises into exactly those three parts |
| Command.TokenizeTriple | server/command.go:193-202 | three words joined by single spaces tokenise into command, action and a one-element parameter list |
| Command.ExecuteDispatches | server/command.go:204-213 | a `/trivia` line that passes validation runs the handler its action selects, with nothing posted before it |
| Command.TokenizeBare | server/command.go:196-202 | the command word alone gives an empty action and no parameters |
| Command.Route | server/command.go:213-239 | unknown exactly for words outside the six routed actions and the empty action; delete for delete_question and start; help exactly for the empty action |
| Command.Dispatch | server/command.go:213-239 | only set can crash; only set and delete can change the store; preview, list, help and the unknown reply record no `GetChannel` or KV call; help and the unknown action post their one reply; the welcome actions run their handler |
| Command.RoutedActionsAreRuled | server/command.go:213-237 | the routed non-empty actions are exactly those with an arity rule |
| Command.ExecuteCommand | server/command.go:192-241 | a blank-line crash happens exactly for blank lines, before any host call |
| Command.ExecuteIgnoresOtherCommands | server/command.go:204-206 | a first field other than `/trivia` means no post, no call and no store change |
| Command.ExecuteRejects | server/command.go:208-211 | a broken arity rule posts only that rule's reason, makes no call and leaves the store unchanged |
| Command.ExecuteCreate | server/command.go:214-217 | a valid `create` previews the team named by its first parameter and changes nothing |
| Command.ExecuteList | server/command.go:218-220 | a valid `list_quizes` posts the team list and changes nothing |
| Command.ExecuteSet | server/command.go:221-223 | a valid `list_questions` runs set |
| Command.ExecuteGet | server/command.go:224-226 | a valid `add_question` runs get |
| Command.ExecuteDelete | server/command.go:227-232 | valid `delete_question` and `start` both run delete |
| Command.ExecuteHelp | server/command.go:233-236 | `/trivia` with no action posts the help and nothing else |
| Command.ExecuteUnknown | server/command.go:239 | an action without a branch posts "Unknown action" with that action, whatever its parameters |
| Command.HelpRendering | server/command.go:234 | the help starts with its heading and contains no `\|` |
| Command.ExecuteStoreFrame | server/command.go:192-241 | a completed command changes no key but the invoking channel's, and changes anything only for list_questions, delete_question or start |
| Command.ExecuteCrashes | server/command.go:192-241 | a command crashes exactly on a blank line, or on a valid list_questions line without the marker in a found, non-direct channel |
| Command.SetWelcomeTargets | server/command.go:128-152 | every `GetChannel` and KV call set makes concerns the invoking channel or its key |
| Command.GetWelcomeTargets | server/command.go:155-156 | the one KV call of get reads the invoking channel's key |
| Command.DeleteWelcomeTargets | server/command.go:171-184 | the KV calls of delete read and perhaps delete the invoking channel's key |
| Command.DispatchTargets | server/command.go:213-239 | every `GetChannel` and KV call a dispatched handler makes concerns the invoking channel or its key |
| Command.ExecuteTargetsOwnChannel | server/command.go:192-241 | every `GetChannel` and KV call a command makes, completed or crashed, concerns the invoking channel or its key |
| Command.ExecuteCreateNotFound | server/command.go:214-216 | a valid create posts the not-found notice exactly when no configured entry names the team |
| Command.ExecuteSetThenGet | server/command.go:221-226 | round trip over whole lines: a list_questions line stores a text that a later add_question line in the same channel shows |
| Command.ExampleBareTrigger | server/command.go:233-236 | `/trivia` alone posts the help |
| Command.ExampleUnknownAction | server/command.go:239 | `/trivia stop` gets the unknown-action reply |
| Command.ExampleDeleteQuiz | server/command.go:239 | `/trivia delete_quiz all` gets the unknown-action reply |
| Command.ExampleStartWithoutName | server/command.go:75-78 | `/trivia start` is refused with the start rule's reason |
| Command.ExampleBlankLine | server/command.go:193-194 | a line of spaces and tabs crashes before any call |

## Left out

- `server/plugin.go` (`OnActivate`) is not part of this model. Bot provisioning and command registration are host bootstrap.
- `getCommand` and `getAutocompleteData` (server/command.go:32-42, 243-265) are a static schema handed to the host.
- `postCommandResponse` delivery: `SendEphemeralPost`, the bot and user ids and the post's channel. A post is the message text appended to the trace.
- Welcome.List: the post is treated as literal text. The code passes the built list to `fmt.Sprintf` as the format (server/command.go:125), so a `%` in a team name would be mangled. The validation reasons and the help passed the same way (lines 209 and 235) contain no `%`. Every other message is modelled as its format with the arguments substituted, with `%s` of an error taken as its text.
- Welcome.List: the order of the bullets is left unspecified, as Go map iteration order is. The contract states only the set of names and that none repeats.
- Welcome.Previewer: the preview is a pure function of the team and the message. The code calls `previewWelcomeMessage` once per matching part (server/command.go:92), and calls for the same message could differ there; the model does not cover that.
- The bodies of `getWelcomeMessages` and `previewWelcomeMessage` are not part of this model. The messages are an input, and the previewer is a parameter. Its own posts are not modelled.
- Command.ExecuteTargetsOwnChannel: the host calls that `previewWelcomeMessage` makes for `create` (server/command.go:92) are not recorded in the call trace, so the lemma covers only `GetChannel` and the KV calls.
- The `GetChannel` internals: the channel type or the lookup error is an input. Only the `TeamName` field of a welcome message is modelled.
- Byte-level UTF-8: strings are sequences of code points. The behaviour of `strings.Fields` and `strings.TrimSpace` on invalid UTF-8 is not modelled.
- KV durability and concurrent commands: each command runs alone on one store value. A stored empty text is read back as present; the host's treatment of empty values is not modelled.
- Strings.SplitN2: requires a non-empty separator. The engine only uses the marker `set_channel_welcome`, and Go's empty-separator case is not modelled.
- Command.ExecuteCommand: the returned `CommandResponse` is always empty and the returned error always nil, so the model leaves them out. Its own contract covers the blank-line crash; the other outcomes are stated by the lemmas listed above.
