# sshhub in Dafny

sshhub is a console launcher for SSH sessions. It keeps a registry of targets, each with an id, a name, a host, a port, a user and a scan flag. It also keeps a launch template `Exec` with the placeholders `{$IP}`, `{$Port}` and `{$Username}`.

A keyboard menu lets the user do seven things:
- connect to a target;
- list the targets or the settings;
- add, edit or delete a target;
- edit the template;
- exit.

This project models that program's logic and proves properties of it:
- the line prompts `Ask.String`, `Ask.Int` and `Ask.Bool`, and `WriteLine.Confirm`;
- the arrow-key menu `WriteLine.SelectableMenu`;
- target selection, and the field-by-field target editor;
- the stable sort by id that precedes every save;
- the template substitution and the command split of `Connect`;
- the registry updates of the actions;
- the main menu loop.

Console input is modelled as two finite sequences, one of keys and one of lines. Every prompt and menu returns the input it left unread. A prompt that would keep asking after the input is exhausted reports `Unanswered`. A menu that runs out of keys reports `None`.

Files and modules:

- `strings.dfy`, module `Strings`: the .NET behaviour the program relies on.
  - `char.IsWhiteSpace` and `string.IsNullOrWhiteSpace`;
  - `String.Trim`;
  - case-insensitive equality;
  - `Int32.ToString` and `Int32.TryParse`;
  - `String.Replace`.
- `config.dfy`, module `Config`: `ConfigRoot` and `TargetConfig`. Both are classes, because the editor writes into a target in place and the actions remove targets by reference.
- `order.dfy`, module `TargetOrder`: `Targets.OrderBy(t => t.id)`, an insertion sort that is proved sorted, a permutation, stable and idempotent.
- `ask.dfy`, module `Ask`:
  - one per-line verdict function per prompt (Cancel, Accept or Retry);
  - the reply function that runs it over the input;
  - the `while(true)` method proved equal to that reply function.
- `menu.dfy`, module `WriteLine`: `Confirm` and `SelectableMenu`. The menu is specified by the function `Menu` over the key sequence.
- `tcp.dfy`, module `Tcp`: how the reachability probe classifies the end of a connection attempt.
- `targets.dfy`, module `TargetActions`:
  - `SelectTarget`: the row labels, the choice, and the re-shown menu after an out-of-range shortcut;
  - `EditTargetConfig`: one method per prompt, each writing its field into the object, specified by the function `EditForm`;
  - the sort step of `GetJsonFromConfig`.
- `program.dfy`, module `Program`:
  - the launch command: substitution, then split;
  - removal by reference;
  - the seven actions as methods on one `ConfigRoot`;
  - `ShowMenu`'s mutual recursion as the loop of `Run`.

Where the program's files disagree among themselves, the model chooses as follows:
- `Config.cs` declares no `ScanOnline` member, yet `Action.cs` reads and writes `t.ScanOnline`. The model gives `TargetConfig` a `bool ScanOnline` that starts `false`.
- `Program.cs` calls `AddTargetConfig(null, Targets)`, which the shown files do not define. The model runs `EditTargetConfig(null, Targets, isNew: true)` there.
- `Program.cs` calls `EditTargetConfig(target, Targets)` with two arguments. The model passes `isNew: false`.

Other points where the model follows the code:
- The digit keys 8 and 9 on the main menu select rows 7 and 8. `ShowMenu` has no case for those rows and returns, and the whole chain of recursive calls unwinds. `Main` then ends without asking for confirmation. The model ends the session with `Returned`.
- Escape on the main menu runs the exit confirmation, exactly as row 7 does.
- `Connect` splits the command with `Split(' ', 2, RemoveEmptyEntries)`:
  - leading spaces are skipped;
  - the spaces between the executable and the arguments are dropped;
  - the arguments keep any spaces inside them and after them;
  - a command of spaces only has no part 0, so the program throws (`Crashed`).
- `ListTargets` option 2 prints the settings through `Show`. `Show` calls `GetJsonFromConfig`, which sorts `Targets` in place, so viewing the settings reorders the registry.

## Model

| member | source | states |
|---|---|---|
| Config.TargetConfig.constructor | sshhub/Config.cs:10-17 | a new target has id 0, empty name, host and user, port 22 and no scanning |
| Config.ConfigRoot.constructor | sshhub/Config.cs:3-7 | a new configuration has the default template `ssh {$Username}@{$IP} -p {$Port}` and no targets |
| Strings.Trim | sshhub/Program.cs:283 | the result is empty exactly when the input is blank, and otherwise starts and ends with a non-white-space character |
| Strings.TrimKeepsMiddle | sshhub/Program.cs:283 | Trim removes nothing but white space at the two ends: the result is the slice of the input that starts where its leading white space stops, and the text before and after that slice is blank |
| Strings.IsBlank | sshhub/Action.cs:30 | `string.IsNullOrWhiteSpace` on a line, which is never null here: every character is white space, so the empty line counts as blank |
| Strings.EqualsIgnoreCase | sshhub/Action.cs:27 | the `CurrentCultureIgnoreCase` comparisons of a line with `!cancel`, `y` and `n`: equal length and equal characters up to the case of ASCII letters |
| Strings.TrimIdempotent | sshhub/Program.cs:283 | trimming a trimmed template changes nothing |
| Strings.FormatInt | sshhub/Program.cs:89 | a number prints as a non-empty string that starts with no white space and ends in a digit |
| Strings.ParseInt | sshhub/Action.cs:51 | a successful parse yields a 32-bit value and comes from a non-blank line |
| Strings.ParseFormatRoundTrip | sshhub/Action.cs:51 | parsing the decimal form of any 32-bit number gives the number back |
| Strings.EqualsIgnoreCaseNotBlank | sshhub/Action.cs:27-31 | a line that matches a word starting with a visible character, ignoring case, is not blank |
| Strings.ReplaceAll | sshhub/Program.cs:88-90 | `String.Replace`: each occurrence of the pattern, found left to right without overlap, becomes the replacement |
| Strings.ReplaceChars | sshhub/Program.cs:88-90 | a replacement adds no character that is in neither the text nor the replacement |
| Strings.ReplaceByItself | sshhub/Program.cs:87-90 | replacing a placeholder by itself leaves the template unchanged |
| Strings.ReplaceSkipsPlain | sshhub/Program.cs:87-90 | text without the placeholder's first character passes through a replacement unchanged |
| Strings.ReplaceAbsent | sshhub/Program.cs:87-90 | a template without the placeholder's first character is not changed by the replacement |
| TargetOrder.WithId | sshhub/Action.cs:397 | the targets carrying one id, in input order, are elements of the input with that id |
| TargetOrder.Insert | sshhub/Action.cs:397 | inserting adds exactly the new target, keeps every old one and brings in nothing else |
| TargetOrder.SortById | sshhub/Action.cs:397 | the sort keeps the length and exactly the same targets |
| TargetOrder.InsertSorted | sshhub/Action.cs:397 | inserting into an id-ordered sequence keeps it id-ordered |
| TargetOrder.InsertPermutation | sshhub/Action.cs:397 | inserting adds the target once to the multiset of targets |
| TargetOrder.WithIdAppend | sshhub/Action.cs:397 | the targets with an id in a concatenation are those of each part, in order |
| TargetOrder.InsertStable | sshhub/Action.cs:397 | inserting into a sorted sequence puts the new target after every target with the same id |
| TargetOrder.NoneWithSmallerId | sshhub/Action.cs:397 | a sorted sequence holds no target with an id below its first |
| TargetOrder.InsertDistinct | sshhub/Action.cs:397 | inserting a target with an unused id keeps the ids distinct |
| TargetOrder.SortByIdSortedPermutation | sshhub/Action.cs:397 | after the sort the targets are in ascending id order and are a permutation of the input |
| TargetOrder.SortByIdStable | sshhub/Action.cs:397 | the sort is stable: targets sharing an id keep their relative order |
| TargetOrder.SortByIdOfSorted | sshhub/Action.cs:397 | a registry already in id order is left exactly as it is |
| TargetOrder.InsertAtEnd | sshhub/Action.cs:397 | a target with the largest id is inserted at the end |
| TargetOrder.SortByIdIdempotent | sshhub/Action.cs:397 | saving twice sorts no differently from saving once |
| TargetOrder.SortByIdDistinct | sshhub/Action.cs:397 | sorting keeps the ids pairwise distinct |
| TargetActions.SortTargets | sshhub/Action.cs:397 | the targets become their stable sort by id and the template is untouched |
| Ask.ReadLine | sshhub/Action.cs:25 | `Console.ReadLine() ?? string.Empty`: the next line, or the empty string once the input is used up |
| Ask.CancelWordAnyCase | sshhub/Action.cs:27 | `!CANCEL` and `!cancel` are the same sentinel, whatever the case |
| Ask.FormatNotCancel | sshhub/Action.cs:48-52 | a typed number is never taken for the cancellation sentinel |
| Ask.StringVerdict | sshhub/Action.cs:27-34 | on one line, cancel exactly for the sentinel; retry exactly for a blank non-sentinel line when emptiness is checked; otherwise the line verbatim |
| Ask.StringReply | sshhub/Action.cs:20-38 | reads at least one line; the answer is never the sentinel, and never blank when emptiness is checked; only a checking prompt can be left waiting |
| Ask.StringReplyFromInput | sshhub/Action.cs:20-38 | the text returned is one of the input lines, verbatim, or the empty string read at end of input |
| Ask.AskString | sshhub/Action.cs:20-38 | the `while(true)` loop returns what StringReply specifies and leaves the same input |
| Ask.StringSkipsBlankLines | sshhub/Action.cs:30-36 | with emptiness checked, blank lines before the answer change nothing but the input consumed |
| Ask.IntVerdict | sshhub/Action.cs:48-55 | on one line, cancel exactly for the sentinel; retry exactly when the line does not parse and the default is -1; otherwise the parsed number or the default |
| Ask.IntReply | sshhub/Action.cs:40-60 | reads at least one line; an answer is a 32-bit number or the default; only the prompt whose default is -1 can be left waiting |
| Ask.IntReplyFromInput | sshhub/Action.cs:40-60 | the number returned is the default or parses from one of the input lines |
| Ask.AskInt | sshhub/Action.cs:40-60 | the `while(true)` loop returns what IntReply specifies and leaves the same input |
| Ask.AskIntReadsNumber | sshhub/Action.cs:46-52 | typing a 32-bit number returns that number, whatever the default, and consumes one line |
| Ask.AskIntDefault | sshhub/Action.cs:51-58 | an unparseable line is asked again when the default is -1 and otherwise gives the default |
| Ask.BoolVerdict | sshhub/Action.cs:70-80 | cancel exactly for the sentinel; true exactly for `y` in either case or a blank line with default true; false likewise for `n` |
| Ask.BoolReply | sshhub/Action.cs:62-84 | reads at least one line; only the prompt without a default can be left waiting |
| Ask.BoolReplyFromInput | sshhub/Action.cs:62-84 | the answer is the default or was typed as `y` or `n` on one of the lines |
| Ask.AskBool | sshhub/Action.cs:62-84 | the `while(true)` loop returns what BoolReply specifies and leaves the same input |
| Ask.EnterTakesDefault | sshhub/Action.cs:20-84 | an empty line answers a non-checking text prompt with "", a number prompt with its default unless -1, and a yes/no prompt with its default |
| Ask.BoolRejectsPadding | sshhub/Action.cs:73-80 | a padded ` y` is asked again even when there is a default |
| Ask.CancelWins | sshhub/Action.cs:27-71 | the sentinel in any case cancels each of the three prompts and consumes only its own line |
| WriteLine.Confirm | sshhub/Action.cs:134-145 | consumes exactly one line, or none at end of input; what it answers is stated by ConfirmIsAskBoolYes |
| WriteLine.ConfirmIsAskBoolYes | sshhub/Action.cs:140-142 | Confirm is true exactly when there is a line and it is `y` in either case; blank lines, `n`, the sentinel and the end of input all mean no |
| WriteLine.MoveUp | sshhub/Action.cs:177 | Up stays within the rows and wraps from the first row to the last |
| WriteLine.MoveDown | sshhub/Action.cs:180 | Down stays within the rows and wraps from the last row to the first |
| WriteLine.UpDownInverse | sshhub/Action.cs:176-181 | Up then Down, or Down then Up, returns to the same row |
| WriteLine.Shortcut | sshhub/Action.cs:188-196 | a key selects exactly when shortcuts are enabled and it is a digit from 1 to 9; digit k selects k-1, which can exceed the rows |
| WriteLine.Menu | sshhub/Action.cs:160-199 | a result is -1, a row index, or a shortcut index of at most 8; results are within [-1, n) without shortcuts; running out of keys gives no result |
| WriteLine.SelectableMenu | sshhub/Action.cs:160-199 | the key loop, with the highlight kept in [0, n), returns what Menu specifies and leaves the same keys |
| WriteLine.Row | sshhub/Action.cs:176-181 | a non-ending key moves the highlight by its arrow, wrapping by exactly n |
| WriteLine.MenuStep | sshhub/Action.cs:174-181 | an arrow or ignored key only moves the highlight before the next key is read |
| WriteLine.EnterAfterMoves | sshhub/Action.cs:176-183 | after any arrows and ignored keys, Enter returns the start row plus downs minus ups, modulo the number of rows |
| WriteLine.EscapeCancels | sshhub/Action.cs:185-186 | Escape returns -1 and consumes one key, wherever the highlight is |
| WriteLine.DigitSelects | sshhub/Action.cs:188-196 | with shortcuts enabled, digit d from 1 to 9 returns d-1 at once, wherever the highlight is and however many rows there are |
| WriteLine.DigitsIgnoredWithoutShortcuts | sshhub/Action.cs:188-196 | with shortcuts off, digit keys are ignored |
| Tcp.StateName | sshhub/Action.cs:291 | the name `{status}` prints for a probe result: never empty, and ending in `e` or `r` |
| Tcp.Classify | sshhub/Action.cs:212-231 | a connection is Online, a timeout or socket error Offline, any other failure Error, and a probe never reports None |
| TargetActions.StatusColor | sshhub/Action.cs:283-288 | a row is coloured exactly when the probe said Offline or Error |
| TargetActions.Label | sshhub/Action.cs:290-291 | the row text: prefix, colour of the result, `$ `, id, name, user, host, port, and the result's name when probed |
| TargetActions.Item | sshhub/Action.cs:273-291 | the row of one target, probed only when scanning is asked for and the target opts in |
| TargetActions.LabelEndsWithStatusIffProbed | sshhub/Action.cs:290-291 | a row ends in the port's last digit exactly when its target was not probed, and otherwise with the probe result's name |
| TargetActions.BuildItems | sshhub/Action.cs:272-292 | one row per target, in order, each probed exactly when scanning is asked for and the target opts in |
| TargetActions.Pick | sshhub/Action.cs:253-306 | an answer is an index within the targets; with no targets, any key cancels (and no key leaves it unanswered) |
| TargetActions.PickEscape | sshhub/Action.cs:295-302 | Escape in the menu of one or more targets cancels the selection and consumes one key |
| TargetActions.PickByDigit | sshhub/Action.cs:294-305 | each of the first nine targets is chosen by its digit |
| TargetActions.PickIgnoresLargeDigit | sshhub/Action.cs:296-299 | a digit beyond the number of targets is ignored and the following keys decide |
| TargetActions.Designated | sshhub/Action.cs:305 | an answered index designates an element of the registry; cancel and no-answer carry over |
| TargetActions.SelectTarget | sshhub/Action.cs:253-306 | the method returns the target Pick designates, an element of Targets, and the keys Pick leaves |
| TargetActions.IdPrompt | sshhub/Action.cs:312-331 | an accepted id is held by no other target; the input left is a suffix of the input |
| TargetActions.Halt | sshhub/Action.cs:316-378 | a stopped editor is aborted exactly when the prompt was cancelled |
| TargetActions.EditForm | sshhub/Action.cs:308-383 | the id is kept or is no other target's; a completed form has a fresh id; a completed new target has a non-blank name, host and user |
| TargetActions.FromField | sshhub/Action.cs:334-382 | each prompt writes only its own field, the fields of earlier prompts stay as they are, and a new target cannot complete with a blank name, host or user |
| TargetActions.AskUniqueId | sshhub/Action.cs:312-331 | the duplicate-id loop returns what IdPrompt specifies, and an answered id is held by no other target by reference |
| TargetActions.PromptId | sshhub/Action.cs:314-330 | an accepted id is written into the target, nothing else changes, and the rest of the form continues from the name prompt |
| TargetActions.PromptName | sshhub/Action.cs:334-341 | a non-empty name is written into the target and an empty one keeps the current name |
| TargetActions.PromptIp | sshhub/Action.cs:344-351 | a non-empty host is written into the target and an empty one keeps the current host |
| TargetActions.PromptPort | sshhub/Action.cs:354-360 | the answer, or the default (22 when adding, the current port when editing), is written into the target |
| TargetActions.PromptUser | sshhub/Action.cs:363-370 | a non-empty user is written into the target and an empty one keeps the current user |
| TargetActions.PromptScan | sshhub/Action.cs:373-379 | the yes/no answer, with the current setting as default when editing, is written into the target |
| TargetActions.Outcome | sshhub/Action.cs:316-382 | the editor returns the target exactly when the form completed, and null when it was cancelled |
| TargetActions.EditTargetConfig | sshhub/Action.cs:308-383 | the object's fields end as EditForm says, with no rollback on cancel; a returned target's id is held by no other target |
| TargetActions.EnterStep | sshhub/Action.cs:334-382 | Enter at one prompt of an existing target keeps that field and moves on |
| TargetActions.BlankAnswersKeep | sshhub/Action.cs:334-382 | Enter at every remaining prompt of an existing target completes the form with every field kept |
| TargetActions.BlankEditKeepsFields | sshhub/Action.cs:308-383 | Enter at all six prompts of an existing target completes the edit with no field changed |
| TargetActions.CancelAfterIdKeepsNewId | sshhub/Action.cs:314-339 | cancelling after a new id was accepted returns null but leaves that id written into the target |
| TargetActions.CancelAtId | sshhub/Action.cs:314-317 | `!cancel` at the id prompt, in any case, makes the editor return null with no field written |
| TargetActions.CancelStops | sshhub/Action.cs:334-379 | `!cancel` at the name, host, port, user or scan prompt makes the editor return null, keeping the fields the earlier prompts wrote |
| Program.Substitute | sshhub/Program.cs:87-90 | the three `Replace` calls in order: host, then port in decimal, then user |
| Program.SubstituteChars | sshhub/Program.cs:87-90 | the command holds only characters of the template, the host, the decimal port and the user |
| Program.SubstitutePlain | sshhub/Program.cs:87-90 | a template without `{` is launched as it is |
| Program.DefaultTemplate | sshhub/Program.cs:87-90 | the default template becomes `ssh user@host -p port` whenever the host holds no `{` |
| Program.DefaultExecShape | sshhub/Config.cs:5 | the default template is `ssh `, the user placeholder, `@`, the host placeholder, ` -p ` and the port placeholder |
| Program.PlaceholdersDiffer | sshhub/Program.cs:88-90 | the three placeholders start with `{` and none is a prefix of another |
| Program.PassOver | sshhub/Program.cs:88-90 | one `Replace` pass over literal text and placeholders, none of which starts with the one replaced, replaces exactly the pieces equal to it |
| Program.TemplateFills | sshhub/Program.cs:87-90 | for any template of literal text without `{` and placeholders in any order and number, substitution puts the host, the decimal port and the user where their placeholders stood, provided the host holds no `{` |
| Program.DigitsHaveNoBrace | sshhub/Program.cs:89 | a port's decimal form contains no `{`, so the user pass cannot match inside it |
| Program.SkipSpaces | sshhub/Program.cs:92 | only leading spaces are dropped, and the result starts with a non-space |
| Program.TokenLength | sshhub/Program.cs:92 | the executable is the longest run of non-spaces at the start |
| Program.SplitCommand | sshhub/Program.cs:92-106 | no command exactly when the text is all spaces; otherwise a non-empty executable without spaces and arguments that do not start with a space and are the tail of the text |
| Program.SplitJoin | sshhub/Program.cs:92-106 | an executable and arguments joined by one space split back into both; an executable alone gives empty arguments |
| Program.SplitSkipsLeadingSpace | sshhub/Program.cs:92 | leading spaces make no difference to the split |
| Program.DefaultLaunch | sshhub/Program.cs:87-106 | with the default template, a host without `{` and a host and user without spaces, the process started is `ssh` with arguments `user@host -p port` |
| Program.AnyKey | sshhub/Program.cs:118 | `Console.ReadKey(true)`: waits for one key of any kind and consumes it |
| Program.LaunchCommand | sshhub/Program.cs:87-106 | Connect starts nothing exactly when the substituted template is all spaces |
| Program.Without | sshhub/Program.cs:251 | the filter drops the selected object, keeps every other element and brings in nothing |
| Program.WithoutAbsent | sshhub/Program.cs:251 | removing an object that is not there changes nothing |
| Program.WithoutConcat | sshhub/Program.cs:251 | removal works piece by piece over a concatenation |
| Program.WithoutOnce | sshhub/Program.cs:251 | an object that occurs once is removed from its place and the others keep their order |
| Program.RemoveOnlyTheSelected | sshhub/Program.cs:251 | with distinct ids, deleting removes exactly the selected position and the count drops by one |
| Program.WithoutDistinct | sshhub/Program.cs:251 | removal keeps the ids distinct |
| Program.AppendDistinct | sshhub/Program.cs:187 | appending a target whose id is unused keeps the ids distinct |
| Program.MoveToEndDistinct | sshhub/Program.cs:223 | moving the edited target to the end keeps the ids distinct when its id is no other target's |
| Program.SaveAndWait | sshhub/Program.cs:189-191 | saving leaves the targets in their sort by id and the template unchanged, keeps ids distinct, then waits for a key |
| Program.Register | sshhub/Program.cs:181-192 | a completed new target is appended and the registry sorted; cancel changes nothing; ids stay distinct |
| Program.Replace | sshhub/Program.cs:223-228 | the edited object is removed by reference, appended and the registry sorted; ids stay distinct |
| Program.Remove | sshhub/Program.cs:251-256 | the selected object is removed by reference and the registry sorted; ids stay distinct |
| Program.Connect | sshhub/Program.cs:76-122 | launches the command LaunchCommand gives for the picked target, always well-formed; a command of spaces only crashes; the registry is untouched |
| Program.ListTargets | sshhub/Program.cs:130-167 | only option 2 changes the registry, by sorting it; Escape returns at once; otherwise a key is awaited |
| Program.EditKeepsDistinct | sshhub/Program.cs:212-223 | ids stay distinct when only the edited target's id changed, and only to an id no other target holds |
| Program.AddTarget | sshhub/Program.cs:172-193 | a completed new target is appended and the registry sorted; cancel leaves the targets as they were; ids stay distinct |
| Program.EditInPlace | sshhub/Program.cs:212-215 | the live registry element is edited as EditForm says; ids stay distinct even after a cancel |
| Program.EditPicked | sshhub/Program.cs:212-229 | a completed edit moves the target to the end and sorts; a cancelled one leaves the targets in place but keeps what was written |
| Program.EditTarget | sshhub/Program.cs:201-230 | picks a target, edits exactly that object and no other, and puts it back at the end on completion; ids stay distinct |
| Program.DeleteTarget | sshhub/Program.cs:232-258 | only on a `y` confirmation is exactly the picked object removed and the registry sorted; ids stay distinct |
| Program.SetExec | sshhub/Program.cs:283 | the template becomes the trimmed input, which trimming again would not change |
| Program.EditExec | sshhub/Program.cs:267-289 | a non-cancelled answer, never blank, is stored trimmed and saved; cancel leaves the template and targets unchanged |
| Program.MainChoice | sshhub/Program.cs:58-73 | results -1 to 6 run an action: rows 0 to 5 connect, list, add, edit, delete and set the command, -1 and 6 both the exit confirmation, and 7 and 8 nothing |
| Program.MainShortcuts | sshhub/Program.cs:58-73 | digits 1 to 7 run their row, while 8 and 9 run nothing |
| Program.Dispatch | sshhub/Program.cs:58-73 | the program exits only on a confirmed exit; every action keeps ids distinct and the template non-blank and starts only well-formed commands |
| Program.Run | sshhub/Program.cs:37-74 | across the whole session ids stay distinct, the template stays non-blank, every target is an old or a new one, and every command started is well-formed |

## Left out

- JSON and files are not modelled: `ReLoad`, the write in `Save`, the start-up branch of `Main`, and the JSON text of `GetJsonFromConfig`. Only the sort by id that precedes every serialisation is kept. A loaded registry is not validated, so distinct ids are a premise of the session, not a result.
- Console rendering is not modelled: colours, escape sequences, cursor positioning, clearing, the bars, and the printing of `WriteTargets` and `Show`.
- The TCP probe's socket, timeout and asynchrony are not modelled. How the attempt ended comes from a `Probe` parameter, and the model keeps only how that ending is classified. Targets are probed one after the other, as in the code.
- `Process.Start` and `WaitForExit` are not modelled. `Connect` returns the file name and arguments it would start. A start that fails because the executable does not exist is not modelled.
- `Environment.Exit(0)` is modelled as the session ending with `Exited`.
- Keys and lines are two separate finite sequences. The model does not capture how the two kinds of read interleave on the one console.
- Input that runs out is reported, not waited on. A `Console.ReadKey` with no key left ends the session with `InputEnded`. A prompt that would re-ask for ever reports `Unanswered`, and the action stops with `Blocked`.
- `ShowMenu` recursion: the model runs it as a loop, so the call stack's growth and a possible stack overflow are not modelled.
- Strings.EqualsIgnoreCase folds ASCII letters only. It stands for `CurrentCultureIgnoreCase`, and culture-specific folding is not modelled.
- Strings.ParseInt accepts white space, an optional sign and decimal digits within 32 bits. The culture's sign symbols are not modelled.
- Strings.IsWhiteSpace lists the Unicode white-space characters explicitly rather than consulting the Unicode tables.
- Program.Dispatch: states only the invariants every action keeps, not each action's exact effect. The exact effects are stated by the action methods it calls.
- Program.Run: states the invariants the whole session keeps, not the final registry. Each turn's effect is stated by Program.Dispatch and the action methods.
- Config.OtherIds: has no contract of its own. Its meaning, the ids of the targets other than the given object, is its one-line definition.
- Program.TemplateFills: requires a host without `{`. A host that itself spells `{$Port}` or `{$Username}` would be rewritten by the later `Replace` passes; that case is modelled by Program.Substitute but not described by a lemma.
