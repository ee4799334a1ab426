# Release toolkit: a verified model of its decision core

This project models, in Dafny, the parts of the release toolkit that decide something, and proves what they are for:

- **The version ledger** (`Plans`, `PlanTexts`, `Ledgers`, `Decisions`, `Protocol`, `StateClient`). Any number of workflow runs read one shared JSON file, decide, and write it back under GitHub's blob-sha compare-and-swap. Every GitHub request is one step of one runner; steps interleave in any order, runners die and acknowledgements are lost. The ledger is sound in every reachable world, equals the accepted writes run one at a time, and never forgets a reservation or a start. `Decisions` says exactly when a reservation, a start or a promotion is let through, and that every accepted write was due in the ledger of its moment; `PlanTexts` writes out the versions and the values of declared fields.
- **The span-preserving JSON editor and the synchronizer** (`Json`, `JsonTokens`, `JsonRoundTrip`, `JsonReader`, `JsonSplice`, `JsonMeaning`, `JsonEditor`, `JsonFields`, `Sync`). A concrete syntax keeps every character, and `JsonTokens` says which tokens spell which scalars; parser and printer are inverse; splicing tokens over recorded spans changes the tree at the selected paths and nothing else; editing twice is editing once, with one exact exception. `JsonFields` says by the trees before and after which fields a lock or a manifest owns. Runs of many edits reach a common fixpoint or touch nothing, and an interrupted commit has replaced exactly the first files in name order and is completed by the next run.
- **The TOML editor** (`Toml`, `TomlLex`, `TomlScan`, `TomlTokens`, `TomlSplice`, `TomlEditor`, `TomlFields`, `TomlDocument`, `TomlMisread`): the state carried line by line is one scan of the text, means what strings and brackets stand open, and agrees with the TOML grammar in front of every line exactly when every line reads alike; the search finds exactly the assignments of the selected key in the selected table, and `TomlTokens` and `TomlFields` say what headers, keys, values and owned fields are; a spliced value changes one line and is the only thing found again. Where lines read alike, an edit changes nothing but the selected field for every parser that agrees with a reader of tables, arrays of tables and assignments, and editing twice is editing once; where they do not, an accepted edit can change a string instead.
- **Scanners and framing** (`Markdown`, `HttpPages`, `HttpHead`): exactly the comments of release notes are hidden, no heading comes from inside a comment or fence, and sections carry offsets into the original text; the paginated response decoder accepts exactly the framed answers, and header blocks are exactly the texts put together from a status line, header lines and a blank line.
- **Graphs and worklists** (`WorkflowGraph`, `ToolchainDiff`, `ToolchainMeaning`, `Oci`, `OciMerge`, `OciBoundary`, `Receipts`): cycle detection, an explicit-stack tree comparison with unambiguous labels that lists exactly the differences of two trees, exactly which OCI graphs the walk with its layer cache and limits accepts and what an accepted one holds blob by blob, exactly when a merged archive is still accepted, and the exact cover of payloads by receipts.
- **Signal arithmetic** (`Correlation`, `Signal`) over the reals: the bound of Pearson's coefficient, what it is by pairs of samples and how it behaves under shifts, scaling and exchange, the lag search, which finds the delay of a series that comes back later, the smoothing pipeline and the sweep.

`Text`, `Ordering` and `Wrappers` hold what these share. Code that works step by step (loops, objects whose fields change) is a method or a class, proved against a specification function; what the specification means is proved in lemmas beside it.

## Modelling decisions

- GitHub's content hash and the digest of an OCI blob are function parameters, taken as injective where a theorem needs it. Published tags, releases and the clock are arbitrary observations, never assumed to be atomic with a ledger write.
- A branch created at a source commit is taken to carry no ledger file. The check that the ledger is at most four megabytes is a parameter of the host (`oversized`), so it may hold of any ledger.
- `Policy.wellFormed` stands for the single-field policy checks on which no plan depends. A reservation's parent is an opaque value.
- Where the code falls short of what its comments promise, the model keeps the code, states the exact condition and shows a case: `Protocol.WedgedForever`, `Protocol.UnwedgedRecovers` and `Protocol.WedgedOccurs` (a run that dies between creating the ledger branch and writing the file stops all later reservations), `Ledgers.SharedTagsAreStable` and `Protocol.SharedTagOccurs` (stable reservations may share a tag), `JsonEditor.EditTwice`, `JsonEditor.RenameOccurs`, `TomlEditor.EditTwice` and `TomlEditor.RenameOccurs` (a declaration that renames the package it is recognised by), `Toml.FollowsGrammar`, `TomlScan.SevenMarks` and `TomlMisread.StringIsEdited` (a triple quote closed by four marks), `OciMerge.Merge` and `OciBoundary.RoomForMerge` (1024 or more merged leaves, or a merge past the byte limits).
- The TOML parser is a parameter with two readers. Of the reader of keys it is assumed that of the texts in front of a line's equals sign it accepts none that leaves a string, a bracket or a comment open (`TomlSplice.ReadsKeys`, for the scanner's reading of the text and, in `TomlDocument`, for the grammar's). Of the reader of documents nothing is assumed in general; `TomlEditor.EditAgain` says what holds then. `TomlEditor.EditTwice` has as premise that it finds unchanged by what a declaration recognises its field (`TomlEditor.KeepsSelection`). `TomlDocument.EditOnlyChanges` discharges that premise for every parser that accepts no more than the line reader of `TomlDocument` and then reads the same (`TomlDocument.ReadsLines`; `TomlDocument.Parser` is one), on texts that scanner and grammar read alike; the values themselves stay a parameter there.
- An OCI archive is walked under terms: the platforms it may hold images for, and the version and revision of their labels. An input has one platform, a merged archive both.
- JSON strings are sequences of code points because escapes can denote lone surrogates; such text decodes but cannot be written back.

## Model

| member | source | states |
|---|---|---|
| Plans.ValidExactlyWhenCreated | scripts/version_plan.py:322-430 | validation against a policy and a commit accepts exactly the plans that creation makes |
| Plans.IdentityInjective | scripts/version_plan.py:291-319 | one version text has only one base, channel and sequence |
| Plans.TagDeterminesIdentity | scripts/version_plan.py:291-319 | two valid plans with one tag agree in base, channel and sequence |
| Plans.AppleKeepsOrder | scripts/version_plan.py:454-494 | the component order of projected Apple numbers is the order of the build numbers |
| Plans.AppleFits | scripts/version_plan.py:454-494 | every allowed build number gives components of at most four, two and two digits without a leading zero |
| Plans.Pep440KeepsOrder | scripts/version_plan.py:454-494 | nightly development numbers order by run and then by attempt, for every accepted attempt |
| PlanTexts.BaseMeans | scripts/version_plan.py:44 | a base is exactly three decimal numbers with dots between them |
| PlanTexts.CalendarMeans | scripts/version_plan.py:306-314 | the months of every year fill it by the Gregorian count of days, and only February's length depends on the year |
| PlanTexts.TimestampMeans | scripts/version_plan.py:306-314 | a timestamp is valid exactly when it is the fourteen padded digits of a moment of that calendar |
| PlanTexts.IdentityMeans | scripts/version_plan.py:291-319 | a version is formed exactly of a base and a sequence that suits its channel, and is the base, `-beta.N`, `-rc.N` or `-nightly.TIME.RUN.ATTEMPT` behind it |
| PlanTexts.PackageMeans | scripts/version_plan.py:454-484 | the package text of every valid plan by ecosystem and channel, and when a nightly is too large for one |
| PlanTexts.AppleCounts | scripts/version_plan.py:485-488 | the build number is read back from the Apple components |
| PlanTexts.ProjectedMeans | scripts/version_plan.py:454-510 | a declared field is given the value of its kind behind its prefix, and nothing without a package text or the build number it needs |
| PlanTexts.CreateMeans | scripts/version_plan.py:322-360 | a plan is created exactly for a usable policy, a version that can be formed, a full commit, a build above the floor and fields that can all be filled |
| PlanTexts.RefusedPlanMeans | scripts/version_plan.py:322-360 | every refusal to create a plan names what is amiss |
| Ledgers.NextSequence | scripts/release_control.py:1558-1570 | the loop over tags and releases finds one more than the highest number behind the prefix, or refuses the base |
| Ledgers.NextNumberIsTight | scripts/release_control.py:1558-1570 | the number in front of the chosen one is taken by a tag, unless the chosen one is 1 |
| Ledgers.ChosenTagUnseen | scripts/release_control.py:1558-1570 | no number from the chosen one upwards makes a tag that was seen |
| Ledgers.ReserveKeepsSound | scripts/release_state.py:166-215 | a written reservation keeps builds distinct and bounded, sequences in build order and the floor reserved; the counter strictly grows and carries the new build |
| Ledgers.BeginKeepsSound | scripts/release_state.py:229-328 | a written start keeps the ledger sound, sets the floor to its build, never lowers it, and raises it unless it promotes |
| Ledgers.SharedTagsAreStable | scripts/release_state.py:203-215 | two reservations share a tag exactly when both are stable plans of one base |
| Ledgers.RetryKeepsWhatItWouldCreate | scripts/release_state.py:180-192 | a run that holds a reservation never causes another write, and keeps its plan exactly when creating one from its inputs with the recorded sequence and build would give it again |
| Ledgers.RetryReturnsSamePlan | scripts/release_state.py:180-215 | the same request against any later ledger returns the plan first reserved |
| Decisions.PromotionMeans | scripts/release_state.py:273-302 | a promotion is in order exactly for a valid RC with promoted bytes that one reservation holds, at the floor or above, whose tag is published and which no other published tag has overtaken |
| Decisions.StartMeans | scripts/release_state.py:229-258 | a start is in order exactly when the run's own reservation holds that plan and parent, above the floor and above every published build |
| Decisions.BeginMeans | scripts/release_state.py:305-330 | a start is written exactly when it is in order, and raises the floor to its build and changes nothing else |
| Decisions.ChosenIsNextFree | scripts/release_state.py:193-202 | the chosen number is the least one above all that a reservation or a seen tag of the base and channel has |
| Decisions.ReserveMeans | scripts/release_state.py:180-215 | a run without a reservation is given a plan exactly when there is one with the next free sequence and the next build, valid for policy and commit, whose tag is absent; it is recorded under that run, with its build as counter |
| Decisions.RefusalsAreTrue | scripts/release_state.py:166-328 | every refusal names a demand that is not met |
| Decisions.ReadableMeans | scripts/release_state.py:98-149 | a ledger is read exactly when floor and counter are in order and every run is positive and has a valid plan with a build up to the counter |
| Protocol.AcceptedMeansCurrent | scripts/release_state.py:152-161 | a write is accepted only when it was computed from what the file holds at that moment, first creation included |
| Protocol.StepKeepsValid | scripts/release_state.py:98-215 | every step of every runner keeps ledger, log and all runners consistent, and only extends the ledger |
| Protocol.Linearizable | scripts/release_state.py:98-161 | after any interleaving the ledger is that of the accepted writes run one at a time in write order: no update is lost |
| Protocol.ReachableIsSound | scripts/release_state.py:98-328 | every reachable ledger is sound |
| Protocol.NothingIsForgotten | scripts/release_state.py:209-215 | from any reachable world on, counter and floor never fall and no reservation changes or disappears |
| Protocol.AnswersAreDurable | scripts/release_state.py:205-215 | a plan that a run was told it holds, or has begun, stays recorded in every later world |
| Protocol.ReservationsIncrease | scripts/release_state.py:205-215 | accepted reservations take strictly increasing builds in write order, each for another run |
| Protocol.StartsNeverGoBack | scripts/release_state.py:229-328 | once a build has begun no smaller one begins by either path, and a start that is no promotion is above all earlier ones |
| Decisions.EveryWriteIsDue | scripts/release_state.py:98-330 | after any interleaving every accepted write was one that the ledger left by the writes in front of it allowed, promotion and start conditions included |
| Decisions.LostAnswerIsFoundAgain | scripts/release_state.py:180-215 | a reservation whose answer was lost is told again to the same request, whatever happened in between, and nothing more is written |
| Protocol.WedgedForever | scripts/release_state.py:103-107 | once the branch has no file and nobody may create it, no ledger is ever written again |
| Protocol.UnwedgedRecovers | scripts/release_state.py:103-215 | while some runner may still create the file, some continuation writes a ledger |
| Protocol.WedgedOccurs | scripts/release_state.py:103-107 | such a world is reached on every host |
| Protocol.SharedTagOccurs | scripts/release_state.py:193-215 | two runs of one stable base reach a sound ledger in which they hold one tag and different builds |
| Protocol.WedgedIsReachable | scripts/release_state.py:210-214 | one runner that dies between creating the branch and writing the file is enough to get there |
| StateClient.ReadState | scripts/release_state.py:98-149 | a missing branch is an empty ledger without a sha, a missing file on a branch is refused, any other file is read with its sha or refused |
| StateClient.WriteState | scripts/release_state.py:152-161 | the write succeeds exactly for the current blob's sha, or for none where no file is, and otherwise changes nothing |
| StateClient.HighestOf | scripts/release_state.py:196-202 | the scan of the reservations gives the highest sequence of one base in one channel, or 0 |
| StateClient.Allocate | scripts/release_state.py:193-214 | the ledger record changed in place is the one decided, and a refusal leaves it unchanged |
| StateClient.ReservePlan | scripts/release_state.py:166-215 | answer and remaining file of a whole call without interference, error cases included, also said by what a reservation demands |
| StateClient.BeginPublication | scripts/release_state.py:305-330 | the same for a start: it succeeds exactly when the file can be read and the promotion or start is in order, and leaves the file with its build as floor |
| StateClient.AloneIsARun | scripts/release_state.py:166-330 | the whole call is one run of the interleaved machine with the same answer and file |
| JsonRoundTrip.ScalarLocal | scripts/version_plan.py:593-602 | a scalar is found again, with its value, in any text that has the same characters and then stops |
| JsonRoundTrip.ParsedIsPrinted | scripts/version_plan.py:553-602 | what is parsed is well formed and prints as the text it was parsed from |
| JsonRoundTrip.PrintedIsParsed | scripts/version_plan.py:553-602 | every well-formed syntax parses back from its print |
| JsonRoundTrip.AcceptsExactlyPrints | scripts/version_plan.py:540-613 | a text is accepted with a document exactly when the document is well formed, duplicate keys excluded, and prints as the text |
| JsonTokens.StringMeans | scripts/version_plan.py:593-602 | a token spells a text exactly when it is the text's units between quotation marks: plain characters, short escapes, four hexadecimal digits, or two halves of a pair, which never stand side by side as two units |
| JsonTokens.WholeMeans | scripts/version_plan.py:593-602 | a token spells a whole number exactly when it is its decimal text behind an optional minus sign, without leading zeros |
| JsonTokens.OtherMeans | scripts/version_plan.py:593-602 | every other scalar token is one of six words or a whole number with a fraction or an exponent, and stands for itself |
| JsonReader.ReadsNode | scripts/version_plan.py:593-602 | reading with offsets gives exactly the tree and the spans of the parsed syntax |
| JsonReader.JsonDocument.Whitespace | scripts/version_plan.py:548-551 | the loop stops behind the white space |
| JsonReader.JsonDocument.ParseAt | scripts/version_plan.py:593-602 | value, index and added spans are those of the reader, and it fails exactly where the reader fails |
| JsonReader.JsonDocument.ObjectAt | scripts/version_plan.py:553-576 | the member loop collects exactly the fields and spans of the object |
| JsonReader.JsonDocument.ArrayAt | scripts/version_plan.py:578-591 | the item loop collects exactly the elements and spans of the array |
| JsonReader.Load | scripts/version_plan.py:605-613 | a whole text gives exactly the tree and spans of its concrete syntax, or nothing |
| JsonMeaning.RecordedSpans | scripts/version_plan.py:593-613 | recorded spans are in bounds, pairwise disjoint, and each spells the value at its path |
| JsonMeaning.SpansAreScalars | scripts/version_plan.py:593-602 | a path has a span exactly when it leads to a scalar |
| JsonMeaning.SplicedTextMeans | scripts/version_plan.py:650-665 | the spliced text is accepted again and its tree is the old one with the new values at the edited paths |
| JsonMeaning.OnlySpansChange | scripts/version_plan.py:663-665 | splicing from the last span to the first is one copying pass that changes nothing outside the spans |
| JsonMeaning.EarlierSpanStays | scripts/version_plan.py:663-665 | replacing a token leaves every span in front of it where it was |
| JsonSplice.ReplaceIsSplice | scripts/version_plan.py:664-665 | replacing a token in the syntax is splicing its recorded span in the text |
| JsonSplice.SpanHolds | scripts/version_plan.py:600-602 | a span is where its token stands in the printed text |
| JsonEditor.DumpSpells | scripts/version_plan.py:661 | the written token reads back as the value it was written for, for every encodable text and every integer |
| JsonEditor.EscapeIsShortest | scripts/version_plan.py:661 | no other way of writing a character in a string is shorter than the one the encoder takes |
| JsonEditor.EditMeans | scripts/version_plan.py:630-665 | every selected field of the edited text holds the projected value, every path beside them leads to what it led to |
| JsonEditor.EditTwice | scripts/version_plan.py:630-665 | editing again changes nothing, except that a declaration which renames its own package is refused |
| JsonEditor.RenameOccurs | scripts/version_plan.py:649-652 | a package named "a" is renamed to "b" once, and the second edit is refused |
| JsonEditor.SortedDescends | scripts/version_plan.py:663 | the sorted edits run from the last span to the first without overlap |
| JsonEditor.EditText | scripts/version_plan.py:630-665 | the editor's loops give the edited text and the previous values of the version fields, or refuse exactly where the specification does |
| JsonFields.LockEdit | scripts/version_plan.py:630-648 | an npm lock is edited exactly when it names the declared package and, if it has packages, its root package is an object without another name; the version at the top changes and, exactly with packages, the root package's, and nothing beside them |
| JsonFields.ManifestEdit | scripts/version_plan.py:649-665 | a JSON manifest is edited exactly when it names the declared package, if one is declared, and its field takes the version; that field changes and nothing beside it |
| Sync.Checkout.Prepare | scripts/version_plan.py:1049-1082 | preparation succeeds exactly when every edit works and every declaration is a fixpoint of the final contents, which it returns |
| Sync.EditFileRuns | scripts/version_plan.py:1051-1060 | a file's prepared content is where its declarations lead, one edit after the other in their order |
| Sync.Checkout.Commit | scripts/version_plan.py:1102-1130 | whatever other processes write in between, a commit refuses inputs that have changed, replaces only files that still held their original content at their own recheck, and stops at the first that does not |
| Sync.UndisturbedCommit | scripts/version_plan.py:1102-1130 | without other processes a commit is never overtaken; cut short it leaves old or new contents, and completed all edited ones |
| Sync.Checkout.Run | scripts/version_plan.py:1041-1130 | a refused run leaves every file untouched and a check run changes nothing; another run that is not cut short in front of the last drifting file replaces them all, and one that is leaves exactly the first drifting files in name order new and all else old |
| Sync.ReplacedAreFirst | scripts/version_plan.py:1083-1095 | the replaced front of the sorted drift is the drifting files with the fewest drifting names before them |
| Ordering.LessMeans | scripts/version_plan.py:1092 | names are ordered by their first different character, or a name comes before those it begins |
| Sync.CheckAfterSync | scripts/version_plan.py:1070-1099 | after a success a check of the same declarations, in any order and repetition, succeeds and finds no drift |
| Sync.Recovers | scripts/version_plan.py:1102-1130 | preparing again after an interrupted commit comes to the same contents |
| Sync.SeparateFilesPrepare | scripts/version_plan.py:1070-1082 | declarations of different files whose edits keep their own results never conflict |
| Sync.JsonFilesPrepare | scripts/version_plan.py:630-665 | one JSON declaration a file, none renaming its package, always passes the fixpoint check |
| Sync.TomlFilesPrepare | scripts/version_plan.py:858-879 | the same for TOML declarations after whose splice the reader finds the selection unchanged |
| Sync.TomlFilesPrepareByLines | scripts/version_plan.py:858-879 | for a parser that agrees with the line reader, TOML declarations of different files that scanner and grammar read alike always pass the fixpoint check |
| Toml.LexicalState | scripts/version_plan.py:689-709 | the loop gives quote and depth behind a line |
| Toml.CarriedIsScanned | scripts/version_plan.py:829-855 | the state carried line by line is that of one scan of the whole text |
| Toml.StateAtLine | scripts/version_plan.py:829-843 | the same at the start of every line |
| Toml.FollowsGrammar | scripts/version_plan.py:681-709 | scanner and grammar are in one state in front of every line exactly when every line reads alike |
| Toml.LineReadsAlike | scripts/version_plan.py:681-709 | both come out of a line alike exactly when no triple quote closes by four marks or more than five, or the two readings of the rest of the line behind the first that does agree |
| Toml.FourMarksLeaveOpen | scripts/version_plan.py:681-709 | four closing marks with no such mark behind them on the line leave the scanner in a string that the grammar has closed |
| Toml.CommentAfterFourMarks | scripts/version_plan.py:681-709 | with only a comment behind four closing marks, in which one more such mark stands, the line reads alike exactly when the brackets behind that mark balance |
| TomlLex.LexLineMeans | scripts/version_plan.py:681-709 | behind a line the depth has changed by the brackets outside of strings and comments, and exactly the string is open that begins on the line, or is carried in, and has no end on it |
| TomlLex.FirstExtraMeans | scripts/version_plan.py:681-709 | the first extra marks are at the first offset at which a string of three marks ends by four marks or more than five |
| TomlLex.LineAlikeByOffsets | scripts/version_plan.py:681-709 | scanner and grammar come out of a line alike exactly when there are no such marks, or behind the first of them the same string stays open and the same brackets stand outside of strings and comments |
| TomlLex.FollowsByOffsets | scripts/version_plan.py:681-709 | they are in one state in front of every line exactly when that holds of every line |
| TomlScan.SevenMarks | scripts/version_plan.py:829-855 | in the document with `a` set to seven marks and `b` to 1 the scanner finds no `b`, though its line is outside strings |
| TomlScan.FirstStopMeans | scripts/version_plan.py:758-826 | the scan of a line stops exactly at the first stop outside of strings, said by opening marks, closing marks and backslashes |
| TomlScan.AssignmentSeparator | scripts/version_plan.py:758-773 | the loop finds the first of equals sign, comment and line end outside of strings, if that is an equals sign |
| TomlScan.TableHeader | scripts/version_plan.py:801-826 | only the first closing bracket outside of strings ends a header |
| TomlTokens.HeaderMeans | scripts/version_plan.py:801-826 | a line opens a table exactly as one or two brackets, the key up to the first closing bracket outside of strings, as many closing brackets, and nothing behind them but a comment |
| TomlTokens.MalformedMeans | scripts/version_plan.py:801-826 | the search gives up at a header exactly when it has two brackets on one side and one on the other |
| TomlTokens.KeyMeans | scripts/version_plan.py:776-781 | the key of an assignment is what stands in front of its equals sign, without the white space around it |
| TomlTokens.ScalarMeans | scripts/version_plan.py:785-793 | the scalars are basic strings of units, literal strings, and integers as long as they go |
| TomlTokens.ValueMeans | scripts/version_plan.py:782-798 | the value is the scalar behind equals sign and white space, with nothing behind it but a comment |
| TomlScan.Assignments | scripts/version_plan.py:829-855 | the line loop gives the specified places or gives up with the specification |
| TomlScan.PlaceIs | scripts/version_plan.py:829-855 | the offset is the length of the lines passed, and quote and depth are their lexical state |
| TomlScan.ArraysAreCounted | scripts/version_plan.py:841-848 | the counter of an array of tables is the number of its top-level headers so far |
| TomlScan.CurrentIsTable | scripts/version_plan.py:841-848 | the scanner is in the table of the last top-level header, with the number of earlier headers as index for arrays |
| TomlScan.NoneBehindLast | scripts/version_plan.py:841-848 | the header that decides is the last top-level one: no other stands between it and the line |
| TomlScan.FindsExactlySelected | scripts/version_plan.py:776-855 | the search gives up exactly when some line fails, and otherwise finds the values of the selected lines in order |
| TomlScan.SearchFollowsGrammar | scripts/version_plan.py:776-855 | where every line reads alike, the search finds the values of exactly the lines that assign the selected key outside of strings and brackets by the grammar, or gives up at a line that fails there |
| TomlScan.PlacesAreSelected | scripts/version_plan.py:776-855 | a place is found exactly when it is the value of a top-level line whose table and key make the target; places do not overlap |
| TomlSplice.FoundIsScalar | scripts/version_plan.py:776-855 | every found place is a whole single-line scalar of the text, on a line that one scan also finds outside of strings and brackets |
| TomlSplice.AssignmentLexes | scripts/version_plan.py:689-709 | a line that assigns a single-line scalar leaves the lexical state as it was |
| TomlSplice.SplicedIsFound | scripts/version_plan.py:868-874 | splicing a scalar over the only place changes one line and no other, and the search then finds exactly that scalar |
| TomlEditor.TokenIsScalar | scripts/version_plan.py:750-755 | what is written for a value is one single-line scalar |
| TomlEditor.EditMeans | scripts/version_plan.py:858-879 | an accepted edit changes the selected line only; search and reader find the new value there |
| TomlEditor.EditAgain | scripts/version_plan.py:858-879 | editing again gives the edited text back whenever the declaration selects the same field in it |
| TomlEditor.EditTwice | scripts/version_plan.py:723-755 | it does so wherever the reader keeps the selection, except that a declaration which renames its own package is refused |
| TomlEditor.OnlyChangesKeeps | scripts/version_plan.py:723-747 | a reader that finds nothing changed but the selected field keeps every selection |
| TomlEditor.RenameOccurs | scripts/version_plan.py:740-747 | for every reader of the two documents a package named "a" is renamed to "b" once, with the text that results, and the second edit is refused |
| TomlFields.TargetMeans | scripts/version_plan.py:712-747 | the selected field is the version of the one local entry of the declared name, without a source in a Cargo lock and with nothing but a local one in a uv lock, or the declared field of a manifest whose table names the declared package |
| TomlFields.TokenMeans | scripts/version_plan.py:750-755 | the written token is the decimal text of a number, the text itself between single quotes where such a literal stood and the text holds none, and otherwise a JSON string of printable ASCII that spells it |
| TomlFields.EditHolds | scripts/version_plan.py:858-879 | an accepted edit leaves the projected version in that field |
| TomlDocument.WithMeans | scripts/version_plan.py:868-877 | another value at a leaf of the growing document is another value at that path of the document that is read |
| TomlDocument.GrowWith | scripts/version_plan.py:868-877 | whatever tables and values are added later, they neither see nor move the value of a leaf, and are refused for the one value exactly when they are for the other |
| TomlDocument.ArraysInDoc | scripts/version_plan.py:841-848 | an array of tables has as many tables as it has had headers, unless it lies in another array |
| TomlDocument.PathIsTarget | scripts/version_plan.py:776-855 | a scalar that the search selects stands where its line sets a value in the document, table numbers included |
| TomlDocument.LoadedAlike | scripts/version_plan.py:868-877 | two documents whose lines differ in the value of one assignment are one but for the value at its path |
| TomlDocument.EditOnlyChanges | scripts/version_plan.py:858-879 | where scanner and grammar read alike, an accepted edit changes nothing but the selected field in the document that is read |
| TomlDocument.EditTwiceByLines | scripts/version_plan.py:858-879 | and editing again gives the edited text back, except that a declaration which renames its own package is refused |
| TomlMisread.FoundInside | scripts/version_plan.py:829-855 | in a document of five lines the search finds as its only place one in a string |
| TomlMisread.StringIsEdited | scripts/version_plan.py:858-879 | for every reader of the two documents the edit of that place is accepted, because the selected field already holds the value, and changes the string |
| Markdown.RunsAreMaximal | scripts/release_control.py:1671-1674 | the backtick runs are the maximal ones, with no backtick between them |
| Markdown.CodeSpanEnds | scripts/release_control.py:1671-1681 | the reverse pass finds at every offset what the forward search finds |
| Markdown.CodeSpanMeans | scripts/release_control.py:1671-1681 | a code span joins a maximal run with the nearest later run of its length |
| Markdown.CommentLine | scripts/release_control.py:1684-1706 | the characters overwritten in place are those of the comment scan, which always advances |
| Markdown.CommentsAreHidden | scripts/release_control.py:1684-1706 | blanked is exactly what lies behind a live opener and in front of its end, where backslashes, code spans and open comments in front make an offset not live; a comment is carried on exactly when one is open |
| Markdown.MaskKeepsLayout | scripts/release_control.py:1684-1706 | masking blanks characters where they stand and keeps every line break |
| Markdown.ScanLines | scripts/release_control.py:1720-1742 | the generator's lines, with fence and comment state carried along |
| Markdown.OpeningMeans | scripts/release_control.py:1659-1668 | a fence opens exactly with at most three spaces, three or more of one marker, and behind backticks no backtick |
| Markdown.ClosingMeans | scripts/release_control.py:1709-1717 | it is closed exactly by a fence of its marker, at least as long, with only white space behind |
| Markdown.LineMeans | scripts/release_control.py:1720-1742 | what becomes of a line in a fence, opening one, indented by four spaces or a tab outside of comments, or of any other kind: how it is shown, whether it may be a heading or is guidance, and what is carried on |
| Markdown.FenceMeans | scripts/release_control.py:1709-1742 | a line is inside a fence exactly when an earlier line outside of fences and comments opened it and none since closed it |
| Markdown.VisibleKeepsLayout | scripts/release_control.py:1720-1742 | the visible text has the length and line breaks of the original |
| Markdown.ClosingHashes | scripts/release_control.py:1745-1751 | closing hashes are dropped exactly when white space sets them apart from the title, and white space around a title always is |
| Markdown.NoTitle | scripts/release_control.py:1745-1751 | hashes alone, or nothing, are no title |
| Markdown.ReleaseHeadings | scripts/release_control.py:1754-1771 | the offset loop collects exactly the headings of the visible lines |
| Markdown.HeadingsFit | scripts/release_control.py:1754-1771 | headings are whole lines of the original text, from left to right |
| Markdown.HeadingsAreVisible | scripts/release_control.py:1754-1771 | the headings are exactly the lines outside of fences that, with comments blanked, have one to six hashes at most three spaces in, a space or the end behind them, and the rest as title |
| Markdown.ReleaseSections | scripts/release_control.py:1774-1782 | original and masked body of a section are the same slice, the original one stripped |
| Markdown.SectionsMean | scripts/release_control.py:1774-1782 | sections of a level run from their heading to the next one of that level or above, contain none, do not touch, no heading of the level is without one, and of a body only white space at its ends is dropped |
| HttpPages.DecodeAnswer | scripts/release_control.py:367-404 | the position loop decodes the answer and ends |
| HttpPages.PagesComeBack | scripts/release_control.py:367-404 | successful blocks, framed one after the other, decode to exactly their pages in order |
| HttpPages.FailureDropsPages | scripts/release_control.py:401-404 | a failure behind any number of pages decodes to its status alone, whatever its body is |
| HttpPages.DecodesExactlyFramed | scripts/release_control.py:367-404 | an answer decodes to a result exactly when it is the framing of that result: successful blocks with their pages, or any such blocks and a failing header |
| HttpPages.HeadStays | scripts/release_control.py:350-364 | a header block is recognised by itself, whatever follows it |
| HttpHead.BlankLineMeans | scripts/release_control.py:352 | the blank line is one of the four pairs of line breaks |
| HttpHead.SplitMeans | scripts/release_control.py:355 | the lines of a text are those of its one listing by lines and breaks |
| HttpHead.StatusMeans | scripts/release_control.py:356-358 | a status line is HTTP 1.0, 1.1, 2 or 2.0, a code from 100 to 599 and perhaps a reason, and its status is the number the code spells |
| HttpHead.FieldMeans | scripts/release_control.py:359-362 | a header line is a name of token characters, a colon and any value |
| HttpHead.HeaderMeans | scripts/release_control.py:350-364 | a header block announces a status exactly when it is a status line with that status and header lines up to the first blank line |
| WorkflowGraph.Validation.Visit | scripts/workflow_contracts.py:214-232 | a visit that succeeds finishes the workflow behind everything it calls, and an error names a real defect |
| WorkflowGraph.ValidateGraph | scripts/workflow_contracts.py:235-241 | the check succeeds exactly when everything reachable is in order and free of cycles, and then returns exactly the reachable workflows |
| WorkflowGraph.CalleeMeans | scripts/workflow_contracts.py:226-229 | a job calls a workflow exactly by a local path, and calls the one named behind its last slash |
| WorkflowGraph.PathDescends | scripts/workflow_contracts.py:214-231 | every path leads to workflows finished earlier, so none leads back |
| WorkflowGraph.ChainCycles | scripts/workflow_contracts.py:216-217 | a workflow called from the chain it stands in closes a real cycle |
| ToolchainDiff.Comparison.QueueMapping | scripts/release_versioned.py:61-79 | the fields come to lie on the stack in key order, first on top |
| ToolchainDiff.Comparison.QueueList | scripts/release_versioned.py:82-96 | the positions come to lie on the stack in order, first on top |
| ToolchainDiff.Comparison.Changes | scripts/release_versioned.py:99-125 | the stack lists the differences of the recursive, key-sorted, parents-first listing, and empties |
| ToolchainDiff.ListsExactlyUnequal | scripts/release_versioned.py:99-125 | something is listed exactly when the two trees are unequal in Python's sense |
| ToolchainDiff.PlaceInjective | scripts/release_versioned.py:54-75 | different chains of escaped keys and indices end at different labels, redacted or not |
| ToolchainDiff.LabelsTellApart | scripts/release_versioned.py:54-96 | no two positions of one comparison share a label |
| ToolchainMeaning.UnescapeOfEscape | scripts/release_versioned.py:70-75 | a key is read back from its label by the rules of RFC 6901 |
| ToolchainMeaning.EqualShowsNothing | scripts/release_versioned.py:108-109 | below values that Python holds equal no walk leads to a difference |
| ToolchainMeaning.ListsDifferences | scripts/release_versioned.py:99-125 | a label is listed with a change exactly when a walk down both trees ends there at that change: missing on that side, of those two types, or of another value |
| Oci.Archive.LayerDigest | scripts/merge_oci_archives.py:378-422 | with or without the cache a layer passes with the same digest and size, within the limits |
| Oci.Archive.Image | scripts/merge_oci_archives.py:316-376 | an image passes exactly when platform and labels fit, config and layers are there, each layer expands to its declared identity, and the byte limits hold |
| Oci.Archive.Attestation | scripts/merge_oci_archives.py:424-528 | an attestation passes exactly when it is of one of the two styles, its subject is there, every statement is about that subject, and the metadata fits |
| Oci.Archive.Walk | scripts/merge_oci_archives.py:273-314 | a descriptor passes exactly when the graph below it exists, all its leaves are complete and new, and no limit on visits or bytes is exceeded; the state then is the one it predicts |
| Oci.Archive.WalkIndex | scripts/merge_oci_archives.py:254-271 | the same for the children of an index, in order |
| Oci.PassesInSteps | scripts/merge_oci_archives.py:254-314 | two parts of a graph pass together exactly when the second passes behind the first |
| Oci.CompleteMeans | scripts/merge_oci_archives.py:228-248 | a complete leaf is exactly an image or an attestation whose manifest, configuration, layers, subject and statements are blobs of their declared digest and size, with the media types, platform, labels, identities and statement fields written out |
| Oci.NativeMeans | scripts/merge_oci_archives.py:168-175 | in an input with one image and attestations about it, one leaf holds that image and every other one an attestation of its digest |
| Oci.Open | scripts/merge_oci_archives.py:129-175 | an archive is opened exactly when its graph passes, with one image and attestations about that image only, all of them held in full |
| OciMerge.LeafStaysComplete | scripts/merge_oci_archives.py:602-625 | a leaf that is complete stays complete, at the same cost, among more blobs and under wider terms |
| OciMerge.SortsInOrder | scripts/merge_oci_archives.py:573-581 | images come before attestations, then architectures and digests ascend |
| OciMerge.OrderMeans | scripts/merge_oci_archives.py:573-581 | in that order every leaf's kind, architecture and digest are at most those of each later leaf |
| OciMerge.OrderIsFixed | scripts/merge_oci_archives.py:573-581 | for leaves with different digests the order does not depend on which input comes first |
| OciMerge.MergedWalk | scripts/merge_oci_archives.py:568-609 | a walk of the merged root passes exactly when visits, distinct digests and byte totals allow it, and then comes to the sorted leaves |
| OciMerge.Merge | scripts/merge_oci_archives.py:550-627 | merging never conflicts, keeps both inputs, holds every image and attestation in full under the terms of both platforms, and is walked as that says |
| OciBoundary.RoomForMerge | scripts/merge_oci_archives.py:273-275 | two inputs that open are accepted merged exactly up to 1023 leaves together |
| Receipts.Coverage.CoverArtifacts | scripts/version_receipt.py:253-269 | a receipt passes exactly when its artifacts match, cover nothing twice and cover no receipt |
| Receipts.Coverage.VerifyReceipts | scripts/version_receipt.py:272-300 | the check succeeds exactly when the receipts divide the payloads among themselves |
| Receipts.EveryPayloadOnce | scripts/version_receipt.py:253-300 | every payload stands with an identical record in one receipt and in no other |
| Receipts.ReceiptNameMeans | scripts/version_receipt.py:281-285 | a receipt is named by letters, digits, points, underlines and dashes between its two fixed ends |
| Correlation.CauchySchwarz | analysis/grid_correlation.py:42-53 | the squared covariance sum is at most the product of the variance sums |
| Correlation.PearsonBounded | analysis/grid_correlation.py:42-53 | the coefficient lies between -1 and 1 |
| Correlation.PearsonByPairs | analysis/grid_correlation.py:42-53 | the coefficient is nothing for different lengths or without variation, and otherwise how the series differ together over all pairs of samples, as a share of the root of how each differs by itself |
| Correlation.PearsonCommutes | analysis/grid_correlation.py:42-53 | which series comes first does not matter |
| Correlation.PearsonScales | analysis/grid_correlation.py:42-53 | shifting a series or scaling it up leaves the coefficient alone, turning it over turns the sign, flattening it gives nothing |
| Correlation.PearsonOfAffine | analysis/grid_correlation.py:42-53 | a series that follows another one exactly has coefficient one upwards and minus one downwards |
| Correlation.BestLag | analysis/grid_correlation.py:92-110 | the sentinel exactly when no lag is usable, otherwise the greatest correlation at the smallest lag that attains it; for a series that comes back later, scaled up or shifted, that is one at its delay or before |
| Correlation.UsableLags | analysis/grid_correlation.py:98-106 | which lags leave ten samples on both sides, by Python's slices; for series of one length exactly those that leave ten samples |
| Correlation.OverlapPairs | analysis/grid_correlation.py:98-103 | a lag pairs each sample of the one series with the other's so many samples later |
| Correlation.DelayedCorrelates | analysis/grid_correlation.py:92-110 | at the delay of a series that comes back later the correlation is one |
| Signal.EmaLoop | analysis/grid_correlation.py:118-124 | the loop gives the filter's output |
| Signal.EmaMoves | analysis/grid_correlation.py:118-124 | the filter starts at the first sample and from then on moves by its share of the way to the next one |
| Signal.FirstStageBlend | analysis/grid_correlation.py:127-141 | one pass over the pairs gives the filtered series mixed with the raw one |
| Signal.FirstStageIs | analysis/grid_correlation.py:127-141 | each blended sample is the weight's share of the filtered derived sample and the rest of the raw one, as far as both go |
| Signal.EmaVariation | analysis/grid_correlation.py:118-124 | smoothing with a coefficient between 0 and 1 never raises the total variation |
| Signal.BlendIsTame | analysis/grid_correlation.py:127-151 | the blend stays between the smallest and greatest sample, and its total variation is at most the weighted sum of its inputs' |
| Signal.NearZeroShare | analysis/grid_correlation.py:63-67 | the near-zero share is the samples from -100 to 100 in a hundred |
| Signal.StddevByPairs | analysis/grid_correlation.py:56-60 | the deviation is the root of half the mean square difference of pairs of samples |
| Signal.CandidatesAre | analysis/grid_correlation.py:182-196 | exactly all combinations are listed, each with the metrics of simulating its own coefficients |
| Signal.SweepTries | analysis/grid_correlation.py:178-196 | the sweep tries exactly the given coefficients, or for an empty list the usual ones, each with the metrics of its own simulation |
| Signal.RankKeepsTies | analysis/grid_correlation.py:197 | candidates of one score keep their order |
| Signal.KeptScoreHighest | analysis/grid_correlation.py:197-198 | kept and dropped candidates are all of them, as many are kept as asked for, and none dropped has a higher near-zero share, or the same and a smaller deviation |
| Signal.Sweep | analysis/grid_correlation.py:169-198 | the nested loops give the best of all combinations, with defaults for empty lists |

## Left out

- GitHub's API client, subprocesses, the network, clocks, environment, file modes and temporary files: one-step contracts, parameters or nothing.
- JSON: the decoder's limits on nesting depth and on integers of more than 4300 digits, UTF-8 decoding of the file, and the values of numbers that are not integers (kept as their token).
- TOML: `splitlines` also breaks lines at other characters than line feeds; the parser `tomllib` is a parameter.
- TomlEditor.EditTwice: that the parser keeps the selection is a premise, because the parser is a parameter; `TomlDocument.EditTwiceByLines` is without it.
- Sync.TomlFilesPrepare: the same premise, for every file; `Sync.TomlFilesPrepareByLines` is without it.
- Toml.LineReadsAlike: behind the first extra marks its condition compares two readings; `TomlLex.LineAlikeByOffsets` says it by offsets.
- Toml.FollowsGrammar: the same, on every line; `TomlLex.FollowsByOffsets` says it by offsets.
- The Python, plist, Xcode project and text editors: `Sync` takes any editor as a parameter.
- Sync.Checkout.Commit: staging of the new contents beside the files, and the evidence records.
- Markdown: guidance and setext checks, and container content.
- HTTP answers that are not paginated.
- OCI: the outer tar format, the layout file, the provenance predicate types and the merge report; the two blob tables are joined in one step; documents with fields of the wrong type are refused by the decoder parameter.
- Receipts: the evidence checks on a single receipt are part of the reader parameter; detached provenance is left out.
- Signal: rounding, NaN and fetching; arithmetic is over the reals.
- Metadata validation of manifests, evidence and release snapshots, the web hook, dashboards and packaging scripts: long conjunctions or thin wrappers that would add only easy members.
- Deletion of the ledger branch and rewriting of its history.
