# A verified model of j4-dmenu-desktop

j4-dmenu-desktop collects desktop files, shows their names in a menu, turns the chosen line into a command and,
in its wait-on mode, keeps doing so while desktop files come and go. This project models the stateful and the
parsing parts of the program in Dafny and proves what they are for. Each module follows one source file; a method
carries the source's loop or update and is proved against a specification function or predicate, and the lemmas
prove what the program promises about that specification.

- `AppManagers` and `Confluence`: the table of desktop files and the index from names to applications. After
  construction and after any run of additions and removals the index is exactly what a search of the table would
  answer, no key outlives the string it views, and a run aborts at precisely known changes.
- `CMDLineAssembler` and `DesktopEntries`: the two escape layers of the Exec key (sections 4 and 7 of the Desktop
  Entry Specification) and the quoting for a shell (section 2.2 of the POSIX Shell Command Language).
- `CMDLineTerm` and `CMDLineTermDebug`: custom terminal templates. Validator, parser and in-place expander agree on
  one grammar and mean simultaneous substitution; a debug check that some accepted templates fail.
- `FieldCodes`, `LocaleMatching`, `Formatters`, `DynamicCompare`: field codes, localized names, displayed names and
  their order.
- `HistoryManagers`: counts of choices over whole runs, the history file, and the conversion of the old format.
- `Menus` and `Daemon`: from the index to the menu and back, over any run of file changes and choices.
- `ChildReaping` and `NotifyKqueue`: two interleaving protocols as state machines over atomic steps.
- `FileFinder`: the directory walk.

An `Application*` is represented by the desktop ID that owns the application, and a `string_view` key by that ID and
the field it views, so that "the key is alive" is a statement about the table. Iteration over a hash table takes an
arbitrary element each time. Reading a desktop file is a parameter with four outcomes: populated, disabled,
unreadable, invalid. A `char` stands for a byte. An abort or an exception is a result that says so.

## What the code does differently from its documentation

The model follows the code. The exact condition is proved in each case, and a concrete input is given.

- An application whose GenericName repeats its Name and which is the only provider of that name cannot be removed or
  replaced: the second removal aborts (`AppManagers.AppManager.Remove`, `Confluence.RemovingARepeatedNameAborts`).
  A set of files can be added in any order exactly if no file with a repeated name loses its ID to one of lower rank
  (`Confluence.EveryScanOrderWorks`).
- `add` does not validate Exec, so outside of Wine compatibility mode it keeps files that the constructor drops. The
  two agree exactly if no winning file has a malformed Exec (`Confluence.AddingAgreesWithStrict`,
  `Confluence.MalformedExecIsKept`).
- Adding a file anew is documented as removing and adding it; a file of higher rank or one that cannot be read leaves
  the old entry instead, and these are the only exceptions (`Confluence.AddingAgainIsReplacing`,
  `Confluence.HigherRankIsNotAdded`).
- Removing a file takes its ID out even if another file on disk could hold it; exactly then a new scan would differ
  (`Confluence.RemovingIsRescanning`, `Confluence.ShadowedFileStaysAway`).
- An empty last Exec argument is lost, and no other (`CMDLineAssembler.ExecRoundTrip`,
  `CMDLineAssembler.EmptyLastArgumentIsLost`).
- Only the first field code of an argument is expanded. All are exactly if that code is invalid, so that the expansion
  fails, or the codes behind it would leave their text as it is (`FieldCodes.EveryCodeIsExpanded`,
  `FieldCodes.SecondCodeIsNotExpanded`).
- A suffix after an embedded field code is lost exactly if there are several words and the number of arguments does
  not exceed its position (`FieldCodes.EmbeddedUserCode`, `FieldCodes.EmbeddedSuffixIsLost`).
- The argument after an erased or multiplied field code is passed over. The result is that of expanding every argument
  exactly if the expansion fails anyway or no argument passed over would have changed
  (`FieldCodes.EveryArgumentIsExpanded`, `FieldCodes.NextCodeIsMissed`).
- A key that merely begins with Name or GenericName counts as that key, exactly if no bracket follows
  (`DesktopEntries.LongerKeyRank`, `DesktopEntries.OtherKeyOverridesName`).
- The list of an empty value runs on into the text behind it; all other values give their own list
  (`DesktopEntries.ListOfValue`).
- In debug builds the parser of custom templates aborts on accepted ones that spell out `{cmdline@}` with an escaped
  brace inside an argument (`CMDLineTermDebug.AcceptedPasses`, `CMDLineTermDebug.EscapedPlaceholderAborts`).
- Pruning the history passes over the entry after each erased one. Obsolete entries remain exactly if two of them are
  neighbours (`Menus.PruningIsComplete`), and a displayable name is not displayed exactly if its entry comes directly
  behind an erased one (`Menus.DisplayIsComplete`, `Menus.PruningSkipsANeighbour`).
- In case-insensitive mode, loading aborts exactly if two displayed lines differ only in case
  (`Menus.NameToAppMapping.Load`, `Menus.NamesThatDifferInCaseCollide`).
- The menu is said to be sorted by frequency of use, but choices are counted without reloading the displayed history.
  Its head is the present order exactly if it covers every counted name and no choice since the last update has made
  a name outrank one above it (`Daemon.MenuHeadIsPresentOrder`, `Menus.ChoiceMakesHeadOld`).
- A restart does not find the same history exactly if some counted name cannot stand on a line of its own, and an application
  can have such a name (`HistoryManagers.SavedHistoryReopens`, `Daemon.SomeNamesCannotBeStored`).

## Model

| member | source | states |
|---|---|---|
| `AppManagers.AppManager.constructor` | src/AppManager.cc:74-172 | From any ranked file list the table holds, per desktop ID, the first file in rank order that is populated or disabled (with a valid Exec unless in Wine mode), and the index is exact for that table. |
| `AppManagers.AppManager.ScanFile` | src/AppManager.cc:88-171 | One file of the scan: taken IDs stay, disabled files shadow, unreadable and invalid ones and malformed Execs leave no trace; every name that is taken stays with its application, and the index is exact again. |
| `AppManagers.AppManager.FindBestMatch` | src/AppManager.hh:156-200 | In any iteration order of the hash table, the replacement found for a name is a provider of minimal rank among the other applications, viewed through the right field; none is found only if there is none. |
| `AppManagers.AppManager.RemoveNameMapping` | src/AppManager.hh:130-207 | Taking one name of an application out leaves the index right about that name without it, touches no other name, never compares a dead key, and aborts exactly if the name is not registered. |
| `AppManagers.AppManager.RemoveNames` | src/AppManager.cc:190-194 | Removing both names of an application makes the index exact for the table without it; it aborts exactly if the two names are equal and nobody else provides that name. |
| `AppManagers.AppManager.ReplaceNameMapping` | src/AppManager.hh:212-256 | The owner of a name changes only if the newcomer's rank is strictly lower, its key is replaced with it, and the inconsistent-state abort is unreachable. |
| `AppManagers.AppManager.AddNames` | src/AppManager.cc:287-293 | Registering a new application after the index was exact for the rest makes it exact for the whole table, without abort. |
| `AppManagers.AppManager.Remove` | src/AppManager.cc:174-197 | Removal erases exactly the file's desktop ID, whatever its rank, and keeps the index exact; the exact condition under which it aborts. |
| `AppManagers.AppManager.Add` | src/AppManager.cc:199-295 | Addition changes exactly the entry of the file's desktop ID, only if the rank is not higher and the file can be read, keeps the index exact, and leaves every name with its application that another one of the same or of a lower rank has; the exact condition under which it aborts. |
| `AppManagers.AppManager.Run` | src/AppManager.cc:174-295 | After any run of additions and removals the index is exact and the table is the fold of the changes; the run stops exactly at the first change that must abort. |
| `AppManagers.AppManager.CheckInnerState` | src/AppManager.cc:307-389 | In every reachable state the debug check of the index cannot fail; the whole check passes exactly if no ID is empty and no Exec is empty. |
| `AppManagers.AppManager.TryEmplace` | src/AppManager.hh:246-255 | Inserting into the index compares keys only while every key views the live string of the application it resolves to, and keeps that so. |
| `AppManagers.ExactOwnsKeys` | src/AppManager.hh:151-205 | In an exact index every key views a string of the very application it resolves to, which is still populated. |
| `AppManagers.ExactIndexesAgree` | src/doc/AppManager.md:36-42 | Any two exact indexes of a table know the same names and resolve each name at the same rank: ties are the only freedom. |
| `AppManagers.ExactMeans` | src/AppManager.cc:135-151 | In an exact index the Name and the GenericName of every populated application are keys, and each leads to an application of the same or a lower rank that has that name, marked generic exactly if its Name is another. |
| `AppManagers.ExactHasNothingElse` | src/doc/AppManager.md:7-9 | Every key of an exact index is a non-empty Name or GenericName of a populated application. |
| `AppManagers.IdOfNestedFile` | src/AppManager.cc:30-45 | The desktop ID of a file in a directory below the base path joins the two with a dash. |
| `AppManagers.RightAboutOtherNames` | src/AppManager.hh:130-207 | Replacing one application cannot make the index wrong about a name that neither its old nor its new version provides. |
| `AppManagers.AllNamesRemoved` | src/AppManager.cc:190-196 | Repairing only the two names of the removed application suffices for the whole index. |
| `AppManagers.AllNamesRight` | src/AppManager.cc:287-293 | Registering only the two names of the new application suffices for the whole index. |
| `Confluence.BuildBothWays` | src/doc/AppManager.md:29-44 | A manager that starts empty and is given the files of a scan one by one in any order, one file per ID and rank, finishes exactly if no addition aborts; then it holds the applications of the constructed manager in Wine mode and resolves the same names at the same ranks. Otherwise it stops at the first abort. |
| `Confluence.EveryOrderWorks` | src/AppManager.cc:250-254 | Every order of additions finishes if and only if no file whose Name is its GenericName loses its desktop ID to a file of lower rank. |
| `Confluence.EveryScanOrderWorks` | src/AppManager.cc:199-295 | The same for the files of any scan, one file per ID and rank. |
| `Confluence.DifferentNamesAddInAnyOrder` | src/AppManager.cc:199-295 | If every Name differs from its GenericName, no order of additions aborts. |
| `Confluence.AddingInAnyOrderIsConstructing` | src/AppManager.cc:199-295 | The tables alone: the fold of the additions in any order is the constructor's table in Wine mode, and exact indexes of it give the same answers. |
| `Confluence.AddsKeepLowest` | src/AppManager.cc:199-295 | After any sequence of additions every desktop ID is held by the lowest-ranked usable file, disabled ones included. |
| `Confluence.ScanKeepsLowest` | src/AppManager.cc:88-171 | In both modes the constructor's first-come rule leaves every desktop ID with the lowest-ranked accepted file, because files are read in rank order. |
| `Confluence.ScanKeepsFirst` | src/doc/AppManager.md:34-34 | Among files of one rank with the same ID the constructor keeps the first that was read, disabled or not, if its Exec is accepted. |
| `Confluence.EventsAscend` | src/AppManager.cc:88-95 | The constructor reads files in ascending rank. |
| `Confluence.LowestRankIsUnique` | src/doc/AppManager.md:32-36 | The lowest-rank rule determines the table if no ID occurs twice in one rank. |
| `Confluence.AddingAgreesWithStrict` | src/AppManager.cc:115-133 | Additions in any order give the strict constructor's table if and only if no file that wins its desktop ID has a malformed Exec. |
| `Confluence.StrictScanAgrees` | src/AppManager.cc:115-133 | The constructor's two modes agree if and only if the Wine mode keeps no malformed Exec. |
| `Confluence.MalformedExecIsKept` | src/AppManager.cc:265-293 | A concrete file that an addition keeps and the strict constructor drops. |
| `Confluence.AddingAgainIsReplacing` | src/doc/AppManager.md:20-20 | Adding an existing file equals removing and adding it if and only if the newcomer's rank is not higher and it can be read; then the two also abort alike and resolve the same names at the same ranks. |
| `Confluence.RemovingIsRescanning` | src/AppManager.cc:174-197 | After a removal the table is that of a new scan of the remaining files, in Wine or in strict mode, if and only if none of them could hold the removed ID. |
| `Confluence.HigherRankIsNotAdded` | src/AppManager.cc:219-223 | A concrete addition that leaves the old entry where replacing would not. |
| `Confluence.ShadowedFileStaysAway` | src/AppManager.cc:196-196 | A concrete removal after which a shadowed file stays away, in either mode. |
| `Confluence.DifferentNamesNeverAbort` | src/AppManager.cc:174-295 | If every application's Name differs from its GenericName, no change of any run aborts. |
| `Confluence.RemovingARepeatedNameAborts` | src/AppManager.hh:143-150 | A concrete application whose removal aborts. |
| `CMDLineAssembler.ValidateExecKey` | src/CMDLineAssembler.cc:68-110 | The validator accepts exactly the language of section 7 of the Desktop Entry Specification: balanced double quotes, backslash only inside them and only before the four escapable characters. |
| `CMDLineAssembler.ConvertExecToCommand` | src/CMDLineAssembler.cc:112-198 | On every string, valid or not and in both modes, the flag-based splitter gives the words of its automaton and fails exactly at an invalid escape in strict mode; on an accepted string it does not fail and both flags are clear at the end. |
| `CMDLineAssembler.SplitterAgreesWithGrammar` | src/CMDLineAssembler.cc:112-198 | On every accepted Exec string the splitter fails in neither mode, both modes give the same words, namely those of the grammar, and it never ends inside quotes or an escape. |
| `CMDLineAssembler.QuotedBackslash` | src/CMDLineAssembler.cc:76-92 | Inside double quotes a backslash is accepted before the double quote, the backtick, the dollar sign and the backslash, which it stands for, and before nothing else. |
| `CMDLineAssembler.SplitAtBackslash` | src/CMDLineAssembler.cc:119-183 | On any text: what a backslash does to the next character, inside and outside of quotes, in both modes. |
| `CMDLineAssembler.StrictModeFails` | src/CMDLineAssembler.cc:141-183 | Strict mode fails if and only if the text has a backslash outside of quotes or an escaped space. |
| `CMDLineAssembler.WineModeNeverFails` | src/CMDLineAssembler.cc:112-198 | Wine mode fails on no text. |
| `CMDLineAssembler.WrittenArgumentsRead` | src/CMDLineAssembler.cc:112-198 | A command written with or without quotes, in any mixture of pieces, is read as the texts of its arguments. |
| `CMDLineAssembler.EncodedExecMeansArgv` | src/CMDLineAssembler.cc:68-110 | Quoting every argument as section 7 prescribes gives a well-formed value that means exactly the argument vector, whatever its characters. |
| `CMDLineAssembler.ExecRoundTrip` | src/CMDLineAssembler.cc:112-198 | Encoding then splitting gives the argument vector back, in both modes, if and only if it does not end in an empty argument, which is dropped. |
| `CMDLineAssembler.EmptyLastArgumentIsLost` | src/CMDLineAssembler.cc:194-195 | A concrete vector that loses its last argument. |
| `CMDLineAssembler.SqQuote` | src/CMDLineAssembler.cc:31-66 | The search-and-append loop with its special cases for a final quote and for no quote computes the quoting that the shell lemmas are about. |
| `CMDLineAssembler.QuotedBodyReadsBack` | src/CMDLineAssembler.cc:31-66 | Inside any context a quoted string is read by a POSIX shell as exactly the original, quotes at its start, end or everywhere included. |
| `CMDLineAssembler.ConvertArgvToString` | src/CMDLineAssembler.cc:204-213 | The join loop computes the command string that the shell lemmas are about, for every vector, the empty one included. |
| `CMDLineAssembler.ShellReadsBackArgv` | src/CMDLineAssembler.cc:204-213 | A POSIX shell splits the command string into exactly the original argument vector. |
| `CMDLineAssembler.ShellReadsBackCdCommand` | src/main.cc:840-843 | A POSIX shell reads the prefixed command as `cd`, exactly the path, `&&` and exactly the argument vector. |
| `CMDLineTerm.ValidateCustomTerm` | src/CMDLineTerm.cc:165-239 | The validator accepts exactly the template language: known escapes and placeholders, `{cmdline@}` only as a whole argument, not empty. |
| `CMDLineTerm.ValidIsAccepted` | src/CMDLineTerm.cc:165-239 | Walking through placeholders character by character accepts the same templates as jumping over them. |
| `CMDLineTerm.WrittenTemplateReadsBack` | src/CMDLineTerm.cc:165-338 | Every list of arguments made of text and placeholders, `{cmdline@}` only as a whole one, can be written, is accepted, and is read back as itself. |
| `CMDLineTerm.OtherEscapesAreRefused` | src/CMDLineTerm.cc:177-188 | A backslash before anything but a backslash, an opening brace or a space is refused, wherever it stands in an argument. |
| `CMDLineTerm.OtherPlaceholdersAreRefused` | src/CMDLineTerm.cc:207-215 | An unescaped brace that begins none of the four placeholders is refused. |
| `CMDLineTerm.SeparatorsCollapse` | src/CMDLineTerm.cc:294-299 | Several spaces separate arguments like one, and leading ones do not count. |
| `CMDLineTerm.ParseEscapedTerm` | src/CMDLineTerm.cc:261-338 | The scanning loop with its flags and its jump to the closing brace, on any text, follows the step-by-step parser that the agreement lemmas are about, aborts included. |
| `CMDLineTerm.ParserAgreesWithValidator` | src/CMDLineTerm.cc:261-338 | On every template of the language the parser reaches no abort and returns exactly the grammar's arguments and placeholder positions. |
| `CMDLineTerm.TemplateStandsAlone` | src/CMDLineTerm.cc:216-237 | Every `{cmdline@}` of an accepted template becomes a whole argument. |
| `CMDLineTerm.PositionsIncrease` | src/CMDLineTerm.cc:350-382 | The recorded positions strictly increase and each points at placeholder text in its argument. |
| `CMDLineTerm.ExpansionSubstitutes` | src/CMDLineTerm.cc:340-433 | Expanding positions in place from right to left is simultaneous substitution: nothing that was inserted or escaped is expanded again, and all other text stays. |
| `CMDLineTerm.CustomTermAssembler` | src/CMDLineTerm.cc:340-433 | For every accepted template the assembler does not abort and returns the simultaneous substitution; the script is created exactly if a placeholder asks for it. Text around `{name}`, `{script}` or `{cmdline*}` comes out as that text around the application's name, the script's path or the quoted command line; `{cmdline@}` comes out as the command line's arguments. |
| `CMDLineTerm.PlaceholdersMean` | src/CMDLineTerm.cc:402-422 | The templates that write any text around one such placeholder are accepted and mean that text around its value, and only `{script}` needs the script. |
| `CMDLineTerm.CommandLineMeans` | src/CMDLineTerm.cc:406-409 | The template `{cmdline@}` means the arguments of the command line. |
| `CMDLineTerm.SubstitutedConcat` | src/CMDLineTerm.cc:384-395 | Arguments of a template do not influence each other. |
| `CMDLineTerm.CommandStringIsSafe` | src/CMDLineTerm.cc:410-414 | What replaces `{cmdline*}` is split by a shell into exactly the command line. |
| `CMDLineTermDebug.CheckStandalone` | src/CMDLineTerm.cc:322-335 | The debug check passes exactly if in every argument the first `{cmdline@}` is the whole argument or follows a backslash. |
| `CMDLineTermDebug.AcceptedPasses` | src/CMDLineTerm.cc:322-335 | On an accepted template the check passes if and only if no argument spells out `{cmdline@}` with an escaped brace, except as the whole argument or, where it first does, behind an escaped backslash. |
| `CMDLineTermDebug.OccurrenceIsSpelled` | src/CMDLineTerm.cc:324-326 | No placeholder's text can contribute to a `{cmdline@}` found in another argument: it is spelled out character by character. |
| `CMDLineTermDebug.EscapedPlaceholderAborts` | src/CMDLineTerm.cc:329-332 | A concrete accepted template on which a debug build aborts. |
| `DesktopEntries.Expand` | src/Application.cc:171-194 | A string value is unescaped as section 4 of the Desktop Entry Specification says; a dangling or unknown escape fails. |
| `DesktopEntries.StringRoundTrip` | src/Application.cc:171-194 | Every string has an escaped form on one line that is read back as itself. |
| `DesktopEntries.EscapesMean` | src/Application.cc:153-169 | The five escapes stand for space, newline, tab, carriage return and backslash, and every other one fails. |
| `DesktopEntries.TwoLayerExecRoundTrip` | src/Application.cc:107-108 | An argument vector written with both escape layers is accepted and read back in both modes, if and only if its last argument is not empty. |
| `DesktopEntries.ExpandList` | src/Application.cc:196-233 | The list loop gives the items of the text that it runs over, with escaped semicolons; it fails exactly at a bad escape. |
| `DesktopEntries.ListOfValue` | src/Application.cc:200-224 | That text is the value, and the items are those of the value, if and only if the value is not empty; an empty value runs on into the text behind it. |
| `DesktopEntries.ListRoundTrip` | src/Application.cc:196-233 | Any list of strings, empty items anywhere, is read back from its terminated encoding. |
| `DesktopEntries.ParseLocaleString` | src/Application.cc:235-255 | A line changes the chosen value exactly if it fits at least as well as the best line so far. |
| `DesktopEntries.ReadNames` | src/Application.cc:100-106 | Name and GenericName lines in any interleaving do not influence each other's choice. |
| `DesktopEntries.TheBestLineIsChosen` | src/Application.cc:235-255 | In any order of lines the value of the best-ranked line wins, the last one among equals. |
| `DesktopEntries.FirstPresentKeyIsChosen` | src/Application.cc:239-254 | For every well-formed locale and any lines with well-formed keys, the value is that of the first of the keys of section 5 of the Desktop Entry Specification that is present, the plain key last, and the last such line among several. |
| `DesktopEntries.LocalizedKeyRank` | src/Application.cc:239-249 | A key with a locale in brackets ranks at the first place of that locale among the candidates, and does not fit exactly if it is none of them. |
| `DesktopEntries.PlainKeyRank` | src/Application.cc:250-252 | The plain key ranks behind all candidates. |
| `DesktopEntries.LongerKeyRank` | src/Application.cc:100-106 | A longer key that begins with the plain one counts as the plain one if and only if no bracket follows. |
| `DesktopEntries.OtherKeyOverridesName` | src/Application.cc:101-103 | A concrete file whose Name is overridden by another key. |
| `DesktopEntries.OnlyABestLineCanFail` | src/Application.cc:235-255 | Reading fails if and only if some line that was the best when it was read has an invalid escape. |
| `LocaleMatching.LocaleSuffixes.constructor` | src/LocaleSuffixes.cc:26-68 | The stored candidates are, for any text, those that the specification lemma is about. |
| `LocaleMatching.SuffixesFollowSpecification` | src/LocaleSuffixes.cc:26-68 | For every well-formed lang_COUNTRY.ENCODING@MODIFIER the candidates are those of section 5 of the Desktop Entry Specification, in its order, without the encoding. |
| `LocaleMatching.LocaleSuffixes.Match` | src/LocaleSuffixes.cc:70-76 | The index of the best candidate equal to the text, -1 exactly if there is none. |
| `FieldCodes.SplitAt` | src/Utilities.cc:25-42 | The pieces between delimiters, without an empty piece at the end. |
| `FieldCodes.PiecesAreRuns` | src/FieldCodes.cc:45-50 | Splitting and erasing empty pieces leaves exactly the maximal runs without the delimiter. |
| `FieldCodes.RunsOfJoined` | src/FieldCodes.cc:51-56 | Words joined by spaces are the user's words. |
| `FieldCodes.CodesMean` | src/FieldCodes.cc:42-127 | In any argument: `%%` stands for a percent sign, `%c` for the name, `%k` for the location, the icon and deprecated codes stay, and any other code fails. |
| `FieldCodes.LonePercentThrows` | src/FieldCodes.cc:39-40 | A percent sign at the end of an argument fails. |
| `FieldCodes.ExpandFieldCodes` | src/FieldCodes.cc:27-129 | The iterator loop that erases and inserts in the vector terminates and is one left-to-right pass over the original arguments; inserted words are never scanned. |
| `FieldCodes.StandaloneUserCode` | src/FieldCodes.cc:43-110 | A standalone `%f`, `%F`, `%u` or `%U` is replaced by the user's words and everything around it stays. |
| `FieldCodes.OneArgumentWithCode` | src/FieldCodes.cc:27-129 | If one argument has a code, only that argument changes, whatever the code does. |
| `FieldCodes.EachArgumentByItself` | src/FieldCodes.cc:27-129 | With any number of codes, as long as none is erased or multiplied, every argument is expanded by itself in its place, and the expansion fails exactly if one of them does. |
| `FieldCodes.EveryCodeIsExpanded` | src/FieldCodes.cc:30-127 | For every argument and user text, all codes of the argument are expanded if and only if its first code is invalid or expanding the text behind it would give what is left of that text. |
| `FieldCodes.EveryCodeOfCommand` | src/FieldCodes.cc:27-129 | For every command of which no argument is erased or multiplied, all codes of all arguments are expanded if and only if the expansion fails or that holds of every argument. |
| `FieldCodes.SecondCodeIsNotExpanded` | src/FieldCodes.cc:31-31 | A concrete argument whose second code stays. |
| `FieldCodes.EmbeddedUserCode` | src/FieldCodes.cc:50-102 | For any user text, what stands around an embedded code stays around the words if and only if there are less than two words, no suffix, or more arguments than the suffix's position. |
| `FieldCodes.EmbeddedSuffixIsLost` | src/FieldCodes.cc:91-92 | A concrete command that loses its suffix. |
| `FieldCodes.EveryArgumentIsExpanded` | src/FieldCodes.cc:27-129 | For every command, the result is that of expanding every argument if and only if some scanned argument has an invalid code or no argument that is passed over would have changed. |
| `FieldCodes.PlainArgumentsAreNotMissed` | src/FieldCodes.cc:36-37 | In particular every argument is expanded if no argument directly behind a scanned, erased or multiplied one contains a percent sign. |
| `FieldCodes.ScannedArgumentsFail` | src/FieldCodes.cc:39-40 | The expansion fails if and only if some argument that is not passed over has an invalid code. |
| `FieldCodes.NextArgumentIsPassedOver` | src/FieldCodes.cc:60-107 | Behind any prefix and before any rest, an erased or multiplied argument is followed verbatim by the next one, whatever that is. |
| `FieldCodes.NextCodeIsMissed` | src/FieldCodes.cc:60-107 | Concrete commands, one erased and one multiplied, whose next code stays unexpanded. |
| `FieldCodes.NoCodesNoChange` | src/FieldCodes.cc:27-129 | A command without codes is left alone. |
| `HistoryManagers.CountUp` | src/HistoryManager.cc:127-142 | Inserting the larger element first and erasing the old one after it moves the name behind all entries of the same count. |
| `HistoryManagers.HistoryManager.Increment` | src/HistoryManager.cc:127-142 | Order, uniqueness of names and the range of the counts are kept, and the file is rewritten with the new list. |
| `HistoryManagers.HistoryManager.IncrementAll` | src/HistoryManager.cc:127-142 | Any run of choices within the counter's range leaves the fold of its steps in memory and in the file. |
| `HistoryManagers.HistoryManager.Write` | src/HistoryManager.cc:151-164 | The file holds the header and every entry once, in order. |
| `HistoryManagers.RunCounts` | src/HistoryManager.cc:127-142 | After any run names are unique, each count has risen by the number of its choices, and no other name appears. |
| `HistoryManagers.RunIsRanked` | src/HistoryManager.cc:127-142 | After any run the order is by descending count and, among equal counts, by when that count was reached. |
| `HistoryManagers.ReadFile` | src/HistoryManager.cc:290-315 | Reading fails exactly where the reading function of the round trip does, at an empty name; what it returns is sorted, its counts are `int`s, and its names are neither empty nor contain a newline. |
| `HistoryManagers.FileRoundTrip` | src/HistoryManager.cc:55-112 | Opening the written file restores the same list, negative counts included and ties in the same order, if and only if no name is empty or contains a newline. |
| `HistoryManagers.FileLooksLike` | src/HistoryManager.cc:151-164 | The file begins with the header of version 1.0 and has a line with count, comma and name for each entry, in order. |
| `HistoryManagers.VersionIsChecked` | src/HistoryManager.cc:39-101 | A file with the header is read if its version is 1.0 and refused if it is any other. |
| `HistoryManagers.EmptyNameIsRefused` | src/HistoryManager.cc:290-306 | An entry without a name makes reading fail. |
| `HistoryManagers.SavedHistoryReopens` | src/HistoryManager.cc:151-164 | Whatever has happened since the start, opening the file gives the present history if and only if every name can stand on a line of its own. |
| `HistoryManagers.HistoryManager.FromFile` | src/HistoryManager.cc:55-112 | Opening an accepted file with unique names gives a sorted history that a restart would find again. |
| `HistoryManagers.ConvertHistoryFromV0` | src/HistoryManager.cc:171-237 | Every name of a resolved application has one entry with the count of its first line; equal counts keep the order of the file, Name before GenericName. |
| `Formatters.FormatIsInjective` | src/Formatters.cc:27-49 | All three formatters show different names differently, whatever the applications. |
| `Formatters.FormatsMean` | src/Formatters.cc:27-49 | The default formatter shows the name; the other two add the first word of the command, with and without its directory, in parentheses. |
| `DynamicCompare.BeforeIsStrictOrder` | src/DynamicCompare.hh:46-54 | Both comparisons are strict weak orders that identify exactly the strings equal up to case, or equal. |
| `DynamicCompare.StrcasecmpIsLess` | src/DynamicCompare.hh:46-50 | Comparing the common prefix and then the lengths is the lexicographic order of the lower-cased strings. |
| `DynamicCompare.FirstDifferenceDecides` | src/DynamicCompare.hh:52-54 | The string with the smaller character at the first difference comes first. |
| `DynamicCompare.FirstDifferenceIgnoringCase` | src/DynamicCompare.hh:46-50 | In case-insensitive mode the smaller lower-case character at the first difference beyond case comes first. |
| `DynamicCompare.LowerMeans` | src/DynamicCompare.hh:48-48 | Case is that of the 26 letters of ASCII. |
| `DynamicCompare.PrefixComesFirst` | src/main.cc:528-532 | In both orders a proper prefix precedes its extensions. |
| `Menus.NameToAppMapping.Load` | src/main.cc:286-306 | The sorted map holds exactly the lines of the displayed names; loading aborts if and only if two lines are the same to the comparison. |
| `Menus.ShownNames` | src/main.cc:293-300 | The map holds for each name of the index its formatted line, its application and whether it is a GenericName, without the GenericNames exactly if they are to be excluded. |
| `Menus.CaseSensitiveNamesDoNotCollide` | src/main.cc:299-304 | In case-sensitive mode the collision abort is unreachable. |
| `Menus.NamesThatDifferInCaseCollide` | src/main.cc:299-304 | Two concrete applications in an exact index whose lines collide in case-insensitive mode. |
| `Menus.FormattedHistoryManager.Reload` | src/main.cc:334-372 | The history keeps exactly the entries that are not erased, the lines are exactly those of displayable entries that are looked at, in order, and every displayable name is kept exactly if none comes directly behind an erased entry. |
| `Menus.ReloadKeepsOrder` | src/main.cc:343-371 | With or without pruning, the kept names are displayable, distinct and in history order. |
| `Menus.PruningRemovesObsoleteOnly` | src/main.cc:347-354 | Pruning never removes an entry whose name some application has. |
| `Menus.ReloadedIs` | src/main.cc:343-371 | Erasing in place with an advancing iterator amounts to one rule per entry: an obsolete entry is erased unless the one before it was, and an entry behind an erased one is not looked at. |
| `Menus.PruningIsComplete` | src/main.cc:347-365 | For every history, pruning leaves no obsolete entry if and only if no two obsolete entries are neighbours. |
| `Menus.DisplayIsComplete` | src/main.cc:343-371 | With or without pruning, the displayable names that are not displayed are exactly those directly behind an erased entry; so all are displayed if and only if there are none. |
| `Menus.WithoutPruningNothingIsPassedOver` | src/main.cc:356-365 | Without pruning nothing is erased and every displayable history name is displayed. |
| `Menus.PruningSkipsANeighbour` | src/main.cc:353-365 | Concretely, behind an obsolete entry the next one is neither pruned nor displayed. |
| `Menus.HeadIsPresentOrder` | src/main.cc:611-616 | After any choices since an update, the displayed names are those of the present history in its order if and only if they cover every counted displayable name and, by present counts and arrival, none outranks one above it. |
| `Menus.ChoiceMakesHeadOld` | src/main.cc:611-616 | Two concrete names whose displayed order one choice makes old. |
| `Menus.WriteMenu` | src/main.cc:449-483 | The menu is a permutation of the map's keys, history first in its order, then the rest in the comparison's order; the abort is unreachable for distinct history lines that are keys. |
| `Menus.LookupName` | src/main.cc:522-535 | A displayed line resolves to itself without arguments, otherwise the shortest line that the query extends wins with the remainder as arguments, otherwise the query is a command. |
| `Daemon.CommandRetrievalLoop.UpdateMapping` | src/main.cc:623-627 | Mapping and formatted history agree with the application table after every update; it aborts exactly on a collision. |
| `Daemon.CommandRetrievalLoop.ProcessChange` | src/main.cc:922-943 | A modified desktop file is added under its dashed name at the rank of its directory, a deleted one is removed under that name, and other files change nothing. Afterwards the mapping refers to live populated applications only. It ends the program if and only if the manager cannot make the change or, in case-insensitive mode, the change has brought two displayed names together. |
| `Daemon.TableAfterRun` | src/main.cc:922-943 | After any run every desktop ID is held by the lowest-ranked readable file reported since its last deletion, the last one among equals, and by none if there is none. |
| `Daemon.CommandRetrievalLoop.ShowMenu` | src/main.cc:586-590 | In every reachable state the menu is written without abort and shows every displayed line once, the names of the last update's history first. |
| `Daemon.CommandRetrievalLoop.Prompt` | src/main.cc:586-621 | The menu is shown. A choice that is a displayed line runs that name's application without arguments; otherwise the shortest displayed line that the choice begins with runs its application with exactly the rest as arguments; otherwise the choice is a command. The name that was found is counted, in memory and in the file, unless nothing is to be executed; a command counts nothing. |
| `Daemon.CommandRetrievalLoop.Run` | src/main.cc:915-943 | Over any run of changes and choices the state stays consistent and the table is the fold of the changes. Every menu, command and counted name is the right one for the table, the exact index and the displayed names that its event found; file changes run and count nothing; the history is the result of exactly the counted names and of the prunings; the file reopens to it exactly if every name can be stored. A run stops early only for one of the two reasons of a single change. |
| `Daemon.MenuHeadIsPresentOrder` | j4-dmenu-desktop.1:49-51 | At any moment of a run the head of the menu is the present history by frequency if and only if it covers every counted displayable name and no choice since the last update has made a name outrank one above it. |
| `Daemon.SomeNamesCannotBeStored` | src/HistoryManager.cc:160-161 | A desktop file can give a name with a newline, and a history with that name does not survive its file. |
| `Daemon.WithoutPruningChoicesCount` | src/main.cc:611-616 | Without pruning the history after a run is that of the counted names alone, in the order of their choices. |
| `Daemon.EventsNeverAbort` | src/main.cc:922-943 | If no application repeats its Name as GenericName, no change of any daemon run reaches the manager's abort. |
| `Daemon.LookupFindsName` | src/main.cc:611-616 | The name that is counted for any lookup is a displayed name, and for a displayed line it is that line's name. |
| `Daemon.HistoryLinesAreKeys` | src/main.cc:460-476 | The formatted history consists of distinct keys of the mapping, which is what writing the menu relies on. |
| `Daemon.I3Command` | src/main.cc:810-863 | A shell reads the assembled string as the command; with a path and a terminal, the shell inside the terminal reads the path and the command in turn. |
| `Daemon.EncodedCommandArrives` | src/main.cc:829-839 | A command encoded in a desktop file without field codes reaches the command array unchanged. |
| `Daemon.UserArgumentsArrive` | src/main.cc:829-839 | What the user types after the name takes the place of a standalone code in the command array. |
| `ChildReaping.ReachableStatesKeepInv` | src/main.cc:984-1044 | In every interleaving an exited child still has a pending signal, a byte in the pipe or a pass to come; every fork is tracked once and reaped at most once; the fatal `waitpid` branch is unreachable. |
| `ChildReaping.BlockedWithoutZombies` | src/main.cc:915-921 | When the loop blocks with nothing pending there is no zombie, and exactly the running children are waited for. |
| `ChildReaping.StepKeepsInv` | src/main.cc:94-102 | Every single step, a coalesced signal or a full pipe included, keeps the protocol's invariant. |
| `ChildReaping.PassReapsExactlyZombies` | src/main.cc:1028-1043 | A reaping pass reaps exactly the exited children and keeps exactly the running ones. |
| `ChildReaping.ReapPass` | src/main.cc:1025-1043 | A pass is fatal if and only if some listed process is not a child or is an exited child listed twice; otherwise it reaps exactly the exited children of the list, touches no other, and keeps the running ones in order. |
| `ChildReaping.WaitpidsAreAPass` | src/main.cc:1031-1041 | Uninterrupted steps of the protocol do to children and list what the loop does. |
| `ChildReaping.UninterruptedPass` | src/main.cc:1013-1044 | From the start of a pass in any state that keeps the invariant, the pass without interruption leaves no zombie and lists exactly the running children. |
| `ChildReaping.SignalledLoopReaps` | src/main.cc:915-1044 | Whenever the loop polls and the pipe has something to read, one uninterrupted iteration is possible from `poll` to `poll`; it empties the pipe, leaves no zombie and lists exactly the running children. |
| `ChildReaping.ExitedChildIsReaped` | src/main.cc:94-102 | A child that exits while the loop polls is reaped by its signal and the next uninterrupted iteration. |
| `ChildReaping.MainLoopCanStep` | src/main.cc:915-1045 | In every reachable state the main loop has a step of its own. |
| `NotifyKqueue.NoChangeIsLost` | src/NotifyKqueue.cc:173-179 | In every interleaving, delivered then queued changes are the emitted sequence; replaying it gives the recorded file sets, which equal the last scans. |
| `NotifyKqueue.QueueIsDelivered` | src/NotifyKqueue.cc:173-186 | Whenever the mutex is free, `getchanges` can run through; it returns everything that is queued, in order, and leaves the queue and the pipe empty. |
| `NotifyKqueue.ScanIsReported` | src/NotifyKqueue.cc:60-99 | Whenever the scanner is idle and the mutex is free, a scan can run through; it queues a deletion for each file that has vanished and a modification for each new one, with rank and path, records exactly what it found, and writes a byte. |
| `NotifyKqueue.ReachableStatesKeepInv` | src/NotifyKqueue.cc:70-99 | Mutual exclusion and the agreement of queue, recorded sets and scans hold in every reachable state. |
| `NotifyKqueue.RecordedFile` | src/NotifyKqueue.cc:75-96 | Recording one file more or less changes the presence of exactly its full name, even with nested directories. |
| `NotifyKqueue.OneSplit` | src/NotifyKqueue.cc:82-95 | A full name determines the directory it was found in. |
| `FileFinder.FileFinder.Next` | src/FileFinder.cc:43-73 | Every step yields one more path with its directory flag or ends the walk for good, and the walk makes progress. |
| `FileFinder.FileFinder.OpenDir` | src/FileFinder.cc:78-90 | The next directory is opened once, and its visible entries become pending. |
| `FileFinder.FinishedWalkIsComplete` | src/FileFinder.cc:43-90 | The finished walk has yielded every entry below the root without a hidden component, each exactly once. |
| `FileFinder.FoundIsNotHidden` | src/FileFinder.cc:78-90 | No component below the root of anything that is found begins with a dot. |
| `FileFinder.NothingElseIsMissed` | src/FileFinder.cc:43-90 | Every entry without a leading dot is found if its directory is the root or is found. |
| `FileFinder.CollectFiles` | src/main.cc:221-237 | There is one rank for each search path, in order; its files are exactly the desktop files below that path, each once, and all begin with the path as the constructor of AppManager expects. |
| `FileFinder.CollectFilesBelow` | src/main.cc:226-233 | One search path: exactly the desktop files below it, each once. |

## Left out

- Process and operating system plumbing: forking and executing, FIFO reopening, sockets, temporary scripts, the dmenu process; only their abstract steps appear in `ChildReaping`.
- `NotifyInotify`, option parsing, logging, usage text, `LineReader`, `SearchPath`: plumbing without an invariant of their own.
- The INI line loop of the `Application` constructor: its outcome is a parameter; `DesktopEntries.ReadNames` starts from key and value lines.
- The fixed terminal assemblers, `wrap_command_in_wrapper`, `create_argv` and direct execution: list concatenations. A terminal assembler is an arbitrary function in `Daemon.I3Command`.
- Texts of error messages and warnings: only acceptance and rejection are modelled.
- The usage log that is absent: `Daemon` models the loop with a history manager only.
- The sniffing of the old history format and overflow in `fscanf`; old counts are taken as read.
- Bytes after a NUL: names come from C strings, so the case-insensitive comparison never meets one.
- Ranks of `INT_MAX`: a rank is a position in a search path whose length fits an `int`.
- The order of elements with equal inode numbers in a directory, and directories that cannot be opened.
- The content of changed files under kqueue: the source reports names that appear or vanish. It also empties its pipe after releasing the lock, so no wakeup is claimed.
- DesktopEntries.ExpandList: a buffer without any NUL behind the first character of the value is excluded, because the source would read past its end.
- HistoryManagers.HistoryManager.Increment: counts stay below the largest `int`, because the source increments without a check.
- FieldCodes.EmbeddedUserCode: other arguments are without codes there; for commands with several codes see `FieldCodes.EveryArgumentIsExpanded` and `FieldCodes.EachArgumentByItself`.
- Daemon.I3Command: i3 parses the message as its own command language before it hands the string to a shell; that parser is not part of this model, only the shell behind it.
- Vectors of strings that the source edits through a reference, in `FieldCodes.ExpandFieldCodes` and `CMDLineTerm.CustomTermAssembler`, are local sequences that are reassigned; aliasing of the caller's vector is not captured.
