# Verified models of the char-server's stateful code

This project models, in Dafny, the parts of the repository where state changes step by step and
where one piece of code has to agree with another, and proves that they do.

**libconfig** (modules `ConfigTree`, `ConfigScanner`, `ConfigLexer`, `ScanContext`, `StringBuffer`,
`ConfigIncludes`, `ConfigComments`, `ConfigGrammar`, `ConfigWriter`, `ConfigStore`, `LibConfig`,
`ConfigReader`, `ConfigFiles`, `ConfigLookup`, `ConfigCopy`, `ConfigSpelling`, `ConfigSyntax`,
`ConfigTexts`, `ConfigLayout`). Settings are linked objects: a setting is an index into
a store, with a parent pointer and a list of children. The writer walks them and appends to a stream.
The scanner follows the rules of its four start conditions, longest match first; its object works on
the scan context, which holds a growing string buffer and a stack of suspended files. The parser's
actions build the settings through the `parent` and `setting` pointers. Both the scanner object and
the parser object are proved against recursive descriptions (`ScanText`, `ConfigGrammar`), and these
against the writer: what is written is read back, exactly when no setting is named `true` or `false`
in some letter case. `ConfigTokens`, `ConfigScanBack` and `ConfigRoundTrip` hold that proof, which
follows the tree. Files that people write look different: `ConfigSpelling` has every spelling of a
token, `ConfigSyntax` every choice the grammar leaves, `ConfigTexts` puts them together over any
number of files, and what is read is the tree that is spelled.

**Multipart form data** (`Multipart`, `MultipartCuts`, `MultipartRoundTrip`, `MultipartHeaders`,
`MultipartForms`). The parser object keeps
an array with an unread window that slides and is moved to the front in place. One call equals the
function `Feed`; a run of calls equals `FeedAll`. The main results say exactly for which texts the
cutting of the input is irrelevant, and that a form comes back, the one this client serializes and
those of others, with other header lines in other spellings.

**Chunked coding, query strings, base64** (`Wire`, `Chunked`, `ChunkedBodies`, `Query`,
`QueryForms`, `Base64`). Streams read and write
at least one byte and as little as they like, or fail. Reader and writer loops are proved against the
decoding and encoding functions, and these against each other.

**Table synchronisation** (`Inventory`, `Achievement`, `Fame`). A table is a sequence of rows in
increasing id order, or a map from primary keys; the statements that are issued are logged. The
comparing saves are proved to store what deleting and inserting everything would store, and the
incremental leaderboard to show what sorting and taking the first N would show.

**Thread pool** (`ThreadPool`). Every interleaving is a sequence of events on a state with the mutex
holder, the queue, the state of each worker and the shutdown.

**Session protocol** (`Session`). The maps of online accounts, pending timers and tickets are changed by
the packet handlers and timers, in any order. A history of ticket actions, kept beside the state,
carries the statements about whole runs.

**PIN codes** (`Pincode`), and shared modules (`CLibrary`, `HttpText`, `Seqs`, `Options`).

Throughout, a method that changes state states its whole new state, mostly as a function of the old
one, and what the code is for is proved about that function.

## What the proofs show about the code

- A group may be given a member named `True`; the written file is then rejected by the reader
  (`ConfigRoundTrip.ReadWrite` says exactly when, `ConfigRoundTrip.KeywordNamedIsRejected` shows one).
- A name given to `config_setting_remove` counts only up to its first `:`, `.` or `/`
  (`LibConfig.Config.Remove`). A path that ends with `[` finds the first element, and the setting before
  the bracket when there is none (`ConfigLookup.TrailingBracket`), and an index counts modulo 2^32
  (`ConfigLookup.AnyIndex`). A list element without a type is not copied (`ConfigCopy.Copy`).
- A comment or a string that is still open at the end of an included file continues in the outer file
  (`ConfigComments.OpenCommentGoesOn`, `ConfigComments.OpenStringGoesOn`), and a `#` comment in the last
  line needs its line feed (`ConfigComments.LineComment`).
- Whether the parser of forms gives the same result for every cutting of a text is decided by the text
  (`MultipartCuts.CuttingIsIrrelevant`, in both directions). The length of a header line is checked only
  for the first line of a call or of an entry, and counts what has arrived of its line break. So a line
  of the maximal length is rejected when a piece ends inside its line break
  (`MultipartCuts.LimitDependsOnCutting`), and a line of any greater length that follows another one is
  accepted together with it and rejected in a call of its own
  (`MultipartCuts.LaterLineDependsOnCutting`). Text behind the closing delimiter matters when a piece
  starts with a line break in it (`MultipartCuts.LoudEpilogue`). An opening delimiter that is cut in two
  is lost (`MultipartCuts.OpeningMustBeWhole`, `MultipartCuts.OpeningDependsOnCutting`).
- The chunked reader accepts some inputs without a terminator: those that have a chunk whose data is
  followed by something else than a line break (`ChunkedBodies.AcceptedMeans` says that there are no
  others, `ChunkedBodies.AcceptedWithoutTerminator` shows one). It also takes lengths from lines that
  section 7.1 of RFC 9112 does not allow; `ChunkedBodies.AcceptedStrictly` says which accepted inputs
  follow the standard. An empty write, or a shutdown, ends a chunked transfer without terminator, and
  without an error (`Chunked.SentWhole`).
- The key that matches items to rows leaves out the second card; the save is right nevertheless
  (`Inventory.SaveIsReplaceAll`).
- The leaderboard falls out of order, or misses a player, when the fame of a listed player goes down in
  certain ways, and shows a player without fame (`Fame.UpdateKeepsTopExactly` says for every report
  whether it does, `Fame.FallingBreaksOrder`, `Fame.FallingBelowOutsider` and `Fame.NoFameIsListed` show
  one case each, `Fame.FallingToZero` is about a listed player's fall to nothing).
- A thread pool without workers forgets its jobs (`ThreadPool.NoWorkersNoJobs`).

## Model

| member | source | states |
|---|---|---|
| ConfigRoundTrip.ReadWrite | 3rdparty/libconfig/libconfig.c:170-394 | for every printable tree, default number format, tab width and set of include files: reading the written text gives the tree with each number in the format it was printed in, exactly when no setting at any depth is named like a boolean; otherwise reading is a syntax error |
| ConfigRoundTrip.ReadWritePlain | 3rdparty/libconfig/libconfig.c:634-667 | with the plain default format the tree comes back unchanged, if and only if no setting is named like a boolean |
| ConfigRoundTrip.KeywordNamedIsRejected | 3rdparty/libconfig/scanner.c:1124-1135 | a tree with one setting named True can be written, but is not read back |
| ConfigFiles.SaveAndLoad | 3rdparty/libconfig/libconfig.c:553-667 | the same for linked settings: writing a configuration object and reading it into a new one gives an equal tree whose arrays are homogeneous, or a syntax error exactly when a setting is named like a boolean |
| ConfigRoundTrip.ParseValueBack | 3rdparty/libconfig/grammar.c:1494-1780 | the grammar takes back the tokens of a printed value and leaves what follows, at any nesting |
| ConfigRoundTrip.ParseValueBad | 3rdparty/libconfig/scanner.c:1124-1135 | a value with a setting named true or false, in any letter case, inside it is rejected wherever it stands |
| ConfigTexts.ReadSpelled | 3rdparty/libconfig/grammar.c:505-579 | whatever the choice of assignment signs, of no terminator, comma or semicolon behind a setting, of letter cases, number forms, escapes, adjacent strings, blanks and comments, and however the text is spread over files by directives: it is read as the tree it spells |
| ConfigSyntax.AcceptedExactly | 3rdparty/libconfig/grammar.c:505-579 | a token sequence is accepted as a tree if and only if it is a spelling of a well-formed configuration that means the tree, with any choice of terminators and with strings cut in any way |
| ConfigSyntax.ValueAccepted | 3rdparty/libconfig/grammar.c:1494-1780 | a value, however it is spelled, is taken back with what it means, and what follows is left |
| ConfigSyntax.TakenNameRejected | 3rdparty/libconfig/grammar.c:1476-1491 | behind any settings, a name that is taken or not valid is an error |
| ConfigSyntax.MixedArrayRejected | 3rdparty/libconfig/grammar.c:1555-1574 | an array element of another type than the first is an error |
| ConfigLayout.EffectiveMeans | 3rdparty/libconfig/libconfig.c:1134-1138 | the tree that is read back differs in formats only: each number has its own format, or the default |
| ConfigLayout.SampleText | 3rdparty/libconfig/libconfig.c:356-394 | the layout of a group in the root, character by character |
| ConfigScanBack.ScanValue | 3rdparty/libconfig/scanner.c:971-1211 | scanning a printed value in any context gives its tokens and resumes right after it, outside strings |
| ConfigScanBack.ScanConfig | 3rdparty/libconfig/libconfig.c:660-667 | a whole printed configuration scans without error to the tokens of its members |
| ConfigTokens.ScanString | 3rdparty/libconfig/libconfig.c:238-290 | every string without NUL survives the escapes of the writer and the scanner |
| ConfigTokens.ScanInteger | 3rdparty/libconfig/scanner.c:1137-1155 | a printed 32-bit number, decimal or hexadecimal, negative ones as two's complement, is read back as itself |
| ConfigTokens.ScanInteger64 | 3rdparty/libconfig/scanner.c:1144-1159 | the same for 64-bit numbers with their suffix |
| ConfigSpelling.TextScanned | 3rdparty/libconfig/scanner.c:971-1211 | however words, numbers, strings, marks, blanks and comments are spelled and put together, scanning gives the tokens they stand for and goes on with what follows |
| ConfigSpelling.QuotedScanned | 3rdparty/libconfig/scanner.c:994-1055 | a string of plain text, escapes, two-digit codes and single backslashes means their characters |
| ConfigSpelling.RealScanned | 3rdparty/libconfig/scanner.c:1148-1152 | every form of a floating point number is one token with its text |
| ConfigSpelling.LargeNumber | 3rdparty/libconfig/scanner.c:1153-1162 | a decimal number that is too large is clamped to 64 bits, and without suffix its low 32 bits are taken |
| ConfigSpelling.GarbageScanned | 3rdparty/libconfig/scanner.c:1209-1213 | every other character is garbage |
| ConfigFiles.WriteValue | 3rdparty/libconfig/libconfig.c:170-394 | the recursive writer over linked settings appends to the stream exactly the text of the tree they stand for |
| ConfigFiles.WriteMembers | 3rdparty/libconfig/libconfig.c:634-656 | the member loop of a group: names, signs, values and terminators in order |
| ConfigFiles.WriteElements | 3rdparty/libconfig/libconfig.c:300-362 | the element loop of an array or list, with its separators |
| ConfigLexer.Scanner.Lex | 3rdparty/libconfig/scanner.c:971-1225 | one call of the scanner, on the scan context with its string buffer and its stack of suspended files, gives the next token of the recursive expansion of the top file, or its end; every call makes progress |
| ConfigLexer.Scanner.Collect | 3rdparty/libconfig/scanner.c:1008-1044 | the action of a rule that appends: the collected text grows by what the rule says |
| ConfigLexer.Scanner.Include | 3rdparty/libconfig/scanner.c:1077-1100 | the file named by the collected text is opened and the rest of the outer one suspended, unless it does not open or ten are open |
| ConfigLexer.RuleText | 3rdparty/libconfig/scanner.c:1008-1061 | a rule takes the collected text, keeps it or appends to it |
| ConfigLexer.ScanAll | 3rdparty/libconfig/scanner.c:1214-1225 | scanning to the end yields the whole recursive expansion |
| ConfigScanner.PushSplits | 3rdparty/libconfig/scanner.c:1077-1100 | opening an include and suspending the outer file leaves the pending tokens as they are |
| ConfigScanner.EndOfFile | 3rdparty/libconfig/scanner.c:1214-1225 | at the end of a file scanning goes on in the suspended one, and the pending tokens are the same |
| ConfigIncludes.DirectiveIncludes | 3rdparty/libconfig/scanner.c:1057-1100 | an include directive stands for the tokens of its file one level deeper, and scanning resumes right after it; a missing file or an eleventh level is the error token |
| ConfigTexts.DirectiveScanned | 3rdparty/libconfig/scanner.c:1057-1100 | the same for any blanks before and inside the directive and any spelling of the file name |
| ConfigTexts.DocumentScanned | 3rdparty/libconfig/scanner.c:971-1225 | the tokens of a text with directives at line starts are those of its lexemes and, recursively, of the files it names, up to the first failing include |
| ConfigIncludes.CycleIsAnError | 3rdparty/libconfig/scanctx.c:94-134 | files of which each comes to a directive that names one of them, wherever in its text, are scanned to an error, from any depth; the error token is the last one |
| ConfigIncludes.RingIsAnError | 3rdparty/libconfig/scanctx.c:94-134 | when each file of such a set begins with the directive, nothing but the error token is found |
| ConfigIncludes.ErrorsAreLast | 3rdparty/libconfig/scanctx.c:102-131 | the error token occurs only as the last token, and exactly when an include failed |
| ConfigComments.LineComment | 3rdparty/libconfig/scanner.c:1197-1211 | a comment up to the end of its line is passed over exactly when the line ends with a line feed; otherwise its first character is garbage |
| ConfigComments.BlockComment | 3rdparty/libconfig/scanner.c:971-989 | a block comment is passed over up to its first end, whatever it contains; without an end it is still open at the end of the file |
| ConfigComments.OpenCommentGoesOn | 3rdparty/libconfig/scanner.c:1214-1225 | a block comment left open by an included file goes on in the file that includes it |
| ConfigComments.OpenStringGoesOn | 3rdparty/libconfig/scanner.c:1214-1225 | so does a string, with the text it has so far |
| ScanContext.Context.AddFilename | 3rdparty/libconfig/scanctx.c:40-65 | names are stored once: a known name keeps its place, a new one is added at the end |
| ScanContext.Context.PushInclude | 3rdparty/libconfig/scanctx.c:94-136 | a level is pushed unless ten are open or the file named by the collected text does not open, in which case the stack stays as it is; the name is in the list |
| ScanContext.Context.TakeString | 3rdparty/libconfig/scanctx.c:156-161 | the collected text is handed over and the buffer is empty |
| ScanContext.Context.PopInclude | 3rdparty/libconfig/scanctx.c:140-152 | undoes the last push and gives back what it suspended; an empty stack says so |
| StringBuffer.StrBuf.Append | 3rdparty/libconfig/strbuf.c:41-57 | the text is appended and terminated, the capacity stays a multiple of the block size and grows by the least possible amount |
| StringBuffer.StrBuf.Release | 3rdparty/libconfig/strbuf.c:32-37 | the collected text is handed over and the buffer starts afresh |
| ConfigReader.ParseTokens | 3rdparty/libconfig/grammar.c:1474-1787 | the actions, working on the parent and setting pointers, accept a token sequence exactly when the grammar does and build the tree it denotes: at the end the parent is the root, links are correct, names are distinct, arrays hold scalars of one type |
| ConfigReader.ParseContext.ParseValue | 3rdparty/libconfig/grammar.c:1494-1740 | a value fills the pending setting, or becomes one new element of the list that is the parent, and the parent is the same afterwards |
| ConfigReader.ParseContext.Open | 3rdparty/libconfig/grammar.c:1494-1509 | opening an aggregate makes the new setting the parent |
| ConfigReader.CloseUndoesOpen | 3rdparty/libconfig/grammar.c:1494-1519 | after an aggregate has been opened and filled, closing it leads back to the parent from before it was opened, which has it as its only new child |
| ConfigReader.ParseContext.ParseArrayElement | 3rdparty/libconfig/grammar.c:1555-1574 | an array element is added unless its type differs from that of the first, which is an error |
| ConfigReader.ParseContext.ParseSetting | 3rdparty/libconfig/grammar.c:1476-1491 | a setting whose name is taken in its group, or not valid, is an error; otherwise one member is added |
| ConfigReader.ParseContext.TakeScalar | 3rdparty/libconfig/grammar.c:1543-1552 | adjacent strings denote one string |
| ConfigReader.NamesAgree | 3rdparty/libconfig/libconfig.c:413-438 | the search in the member list finds a valid name exactly when the tree has it |
| LibConfig.Config.NameCompare | 3rdparty/libconfig/libconfig.c:130-152 | the loop compares names up to the first path separator; it gives zero exactly when these parts are equal |
| LibConfig.Config.ListSearch | 3rdparty/libconfig/libconfig.c:413-438 | finds the first member whose name agrees with the path up to a separator |
| LibConfig.Config.Add | 3rdparty/libconfig/libconfig.c:1524-1546 | adds exactly when the parent is an aggregate and, in a group, the name is missing or valid and new; links, homogeneous arrays and, with a name, distinct names are kept |
| LibConfig.Config.SetElem | 3rdparty/libconfig/libconfig.c:1259-1286 | appends a scalar or sets an element in place, refusing what would break the type of an array |
| LibConfig.Config.AppendElem | 3rdparty/libconfig/libconfig.c:509-528 | the first element fixes the type of an array; a list takes any |
| LibConfig.Config.SetScalar | 3rdparty/libconfig/libconfig.c:977-1075 | a setting changes its type only from none; a 64-bit value that does not fit an int is stored as 0; integers and floating point numbers accept each other exactly when automatic conversion is on |
| LibConfig.Config.SetFormat | 3rdparty/libconfig/libconfig.c:1120-1130 | only integers take a format |
| LibConfig.Config.Remove | 3rdparty/libconfig/libconfig.c:1550-1568 | afterwards the group has no member that answers to the name, and lost no other |
| LibConfig.Config.RemoveElem | 3rdparty/libconfig/libconfig.c:1572-1594 | exactly one element leaves the list, the others keep their order |
| LibConfig.Config.GetMember | 3rdparty/libconfig/libconfig.c:1476-1483 | nothing outside groups, otherwise the first match |
| LibConfig.ElementsAreFound | 3rdparty/libconfig/libconfig.c:1458-1472 | an index finds the child at its position and no other index does; a removal moves the later ones up, and a new element is found at the end |
| LibConfig.Config.Lookup | 3rdparty/libconfig/libconfig.c:1142-1171 | the loop over the path refines the recursive meaning of a path |
| ConfigCopy.Copy | src/common/conf.cpp:97-108 | below a group or a list that takes the name, a copy of a setting of another configuration is added as one new child that stands for the same tree, except for list elements without a type; below other settings, or when the name is taken, nothing is |
| ConfigCopy.CopyAggregate | src/common/conf.cpp:76-95 | the copy has the same children in the same order |
| ConfigCopy.CopyElem | src/common/conf.cpp:55-74 | an element is appended with its value and format |
| ConfigCopy.CopySimple | src/common/conf.cpp:28-53 | a scalar member is added with its name, value and format |
| ConfigCopy.CopiedIsSame | src/common/conf.cpp:97-108 | without untyped list elements the copy is the same tree |
| ConfigStore.AppendedNamed | 3rdparty/libconfig/libconfig.c:755-782 | a new setting keeps parent links correct and member names distinct |
| ConfigStore.RemovedValid | 3rdparty/libconfig/libconfig.c:442-457 | so does a removal |
| ConfigStore.FindMemberMeans | 3rdparty/libconfig/libconfig.c:413-438 | a search that fails means no member has that name |
| ConfigStore.AbsFrame | 3rdparty/libconfig/libconfig.c:398-409 | the tree below a setting does not depend on settings outside it |
| ConfigLookup.LookupFinds | 3rdparty/libconfig/libconfig.c:1142-1171 | looking up the path of names and indices from the root to any linked setting returns that setting |
| ConfigLookup.LookupFindsBy | 3rdparty/libconfig/libconfig.c:1142-1171 | so does the path with any mixture of the three separators between its steps, before and behind them |
| ConfigLookup.AnyMember | 3rdparty/libconfig/libconfig.c:1142-1171 | any name behind the path finds the member of the group with that name, and nothing exactly when there is none |
| ConfigLookup.AnyIndex | 3rdparty/libconfig/libconfig.c:1142-1171 | any 64-bit number in brackets behind the path finds the element at that position modulo 2^32, and nothing exactly when it is past the end |
| ConfigLookup.PathsDiffer | 3rdparty/libconfig/libconfig.c:1142-1171 | different linked settings have different paths |
| ConfigLookup.TrailingBracket | 3rdparty/libconfig/libconfig.c:1142-1171 | the path to a setting with an opening bracket behind it finds the first element, and the setting itself when there is none |
| MultipartRoundTrip.ReceivedAsSent | 3rdparty/httplib/httplib.cc:1952-2053 | for at least one item and any cutting of the serialized form whose first piece holds the opening delimiter line: up to 1024 items, every call succeeds, the message ends valid, and exactly the items are received, contents whole; with more, a call fails after the first 1024 |
| MultipartForms.FormReceived | 3rdparty/httplib/httplib.cc:1952-2053 | for forms of any client: parts with any header lines in any number, order, letter case and white space, and text before the opening delimiter; up to 1024 parts exactly what their headers say is received with their contents, under every cutting that keeps the beginning whole; of more, the first 1024 |
| MultipartHeaders.LineRead | 3rdparty/httplib/httplib.cc:1987-2002 | a content type sets the type, a disposition sets the names, and every other line changes nothing |
| MultipartHeaders.MatchedExactly | 3rdparty/httplib/httplib.cc:1955-1958 | a line matches the disposition pattern if and only if it is a spelling of a disposition |
| MultipartHeaders.DispositionMatches | 3rdparty/httplib/httplib.cc:1955-1958 | from every spelling the shortest name and file name are found, which without quotes in them are the ones written |
| MultipartHeaders.MatchIsDisposition | 3rdparty/httplib/httplib.cc:1955-1958 | what is found in a matching line are the name and file name of one of its spellings |
| MultipartRoundTrip.TooManyItems | 3rdparty/httplib/httplib.cc:3372-3379 | from the end of a delimiter on, the items up to the bound are received and the next one is refused |
| MultipartCuts.CuttingIsIrrelevant | 3rdparty/httplib/httplib.cc:1952-2053 | after the opening delimiter, and for every state and text: all cuttings give the same result, state and parts as the text in one call (with or without the unread text) if and only if the text is orderly: no header line that is too long, unless it is rejected at once, and nothing of consequence behind the closing delimiter |
| MultipartCuts.CutsAgree | 3rdparty/httplib/httplib.cc:1952-2053 | the same for an orderly text that follows text already in the buffer |
| MultipartCuts.CuttingMatters | 3rdparty/httplib/httplib.cc:1952-2053 | for every text that is not orderly, a cutting into non-empty pieces with another outcome |
| MultipartCuts.LoudEpilogue | 3rdparty/httplib/httplib.cc:2032-2046 | text behind the closing delimiter is dropped when it arrives with it, but with a line break in it, or when it may not be left unread, some cutting has another outcome |
| MultipartCuts.FeedInTwo | 3rdparty/httplib/httplib.cc:2009-2031 | reading a beginning and then the rest is reading the whole, from any state: the retained tail of a body is exactly long enough |
| MultipartCuts.OpeningMustBeWhole | 3rdparty/httplib/httplib.cc:1964-1971 | nothing is ever received as long as no single piece holds the opening delimiter, and only then |
| MultipartCuts.OpeningDependsOnCutting | 3rdparty/httplib/httplib.cc:1964-1971 | from the start all cuttings agree if and only if the text has no opening delimiter |
| MultipartCuts.LimitDependsOnCutting | 3rdparty/httplib/httplib.cc:1977-2008 | a header line is accepted however much of it has arrived if and only if it is shorter than the limit, and as a whole also when it has just that length |
| MultipartCuts.LaterLineDependsOnCutting | 3rdparty/httplib/httplib.cc:1977-2008 | behind another line of the same call a header line of any length is accepted, but in a call of its own, however much of it has arrived, only one that is shorter than the limit |
| MultipartCuts.Receives | 3rdparty/httplib/httplib.cc:1973-2008 | no call of the header callback is taken back, leaving the header lines of an entry calls it, and behind the first line of an entry nothing is rejected before it is called |
| MultipartRoundTrip.ItemsBack | 3rdparty/httplib/httplib.cc:2194-2218 | from the end of a delimiter on, the remaining items are received one by one |
| MultipartRoundTrip.DispositionBack | 3rdparty/httplib/httplib.cc:1955-1958 | the pattern of a content disposition line finds the name and file name the writer put there |
| MultipartRoundTrip.ContentTypeBack | 3rdparty/httplib/httplib.cc:1992-1996 | a trimmed content type comes back, up to the case of the header name |
| MultipartRoundTrip.EmptyFormIsInvalid | 3rdparty/httplib/httplib.cc:2213-2217 | a form without items never becomes valid |
| MultipartRoundTrip.BoundaryAnnounced | 3rdparty/httplib/httplib.cc:1886-1896 | the receiver finds the sender's boundary in the content type |
| MultipartRoundTrip.QuotedBoundary | 3rdparty/httplib/httplib.cc:1886-1896 | a boundary in quotes is found without them |
| Multipart.SerializeFormData | 3rdparty/httplib/httplib.cc:2194-2218 | the item loop writes the form, item by item, and the closing delimiter |
| Multipart.Parser.Parse | 3rdparty/httplib/httplib.cc:1952-2053 | one call of the five-state parser over the sliding buffer does what the step function says, for every state, buffer and piece |
| Multipart.Parser.ParseHeaders | 3rdparty/httplib/httplib.cc:1977-2008 | the header loop, with its length check on entry only |
| Multipart.Parser.HeaderCallback | 3rdparty/httplib/httplib.cc:3372-3379 | every call is counted, and exactly the one after 1024 is refused |
| Multipart.Parser.ParseBody | 3rdparty/httplib/httplib.cc:2009-2031 | content is handed over up to the delimiter, or all but as much as a delimiter could need |
| Multipart.Parser.FindText | 3rdparty/httplib/httplib.cc:2102-2123 | the search skips by first character and finds the first whole occurrence in the unread text |
| Multipart.Parser.Append | 3rdparty/httplib/httplib.cc:2125-2141 | moving the unread text to the front and growing the buffer keeps it, followed by the new data |
| Multipart.ParsePieces | 3rdparty/httplib/httplib.cc:3429-3446 | a reader that hands over pieces until a call fails |
| Chunked.DecodeEncode | 3rdparty/httplib/httplib.cc:1516-1554 | the reader delivers exactly what was written and stops right after the terminator (section 7.1 of RFC 9112) |
| Chunked.TransferMeans | 3rdparty/httplib/httplib.cc:1739-1816 | what a transfer sent is accepted exactly when all calls of the provider were made and none but the last ended with an empty write; otherwise it is reported as failed after the data |
| Chunked.Transfer | 3rdparty/httplib/httplib.cc:1739-1816 | end to end over short writes and short reads, with a shutdown at any time and a bound on the payload: received exactly when it was not cut short and fits |
| Chunked.SentWhole | 3rdparty/httplib/httplib.cc:1739-1816 | the whole body is sent exactly when no call but the last ends with an empty write and the server does not shut down before |
| Chunked.DecodeUnfinished | 3rdparty/httplib/httplib.cc:1516-1554 | a body that stops before its terminator is reported as failed, after all of its data |
| ChunkedBodies.AcceptedMeans | 3rdparty/httplib/httplib.cc:1516-1554 | for every input: it starts with a whole body, terminator included, if and only if the reader accepts it and all data of chunks is followed by a line break; a whole body is delivered whole, and nothing behind it is read. The lines with the lengths are those the reader understands, which are more than the standard allows |
| ChunkedBodies.AcceptedStrictly | 3rdparty/httplib/httplib.cc:1516-1554 | for every input: it starts with a body as section 7.1 of RFC 9112 has it (without trailer fields) if and only if, in addition, each line with a length is digits, perhaps an extension, and a line break |
| ChunkedBodies.StrictValue | 3rdparty/httplib/httplib.cc:1529-1534 | from such a line the reader takes the value of its hexadecimal digits |
| ChunkedBodies.LooseValue | 3rdparty/httplib/httplib.cc:1529-1534 | white space, a sign and a prefix before the digits are taken too: the value is the number, its negation modulo 2^64, or the largest one |
| ChunkedBodies.NoValue | 3rdparty/httplib/httplib.cc:1529-1534 | a line without digits there ends the body with a failure |
| ChunkedBodies.WrittenIsStrict | 3rdparty/httplib/httplib.cc:1739-1816 | what the writer sends is such a body, for any writes |
| ChunkedBodies.DecodeBody | 3rdparty/httplib/httplib.cc:1516-1554 | every whole body, with any text behind its lengths, is accepted with exactly its data |
| ChunkedBodies.AcceptedWithoutTerminator | 3rdparty/httplib/httplib.cc:1543-1545 | an input of six characters that is accepted and has no terminator |
| Chunked.MissingLineBreak | 3rdparty/httplib/httplib.cc:1543-1545 | any number of chunks, the last not followed by a line break, is taken for a complete body |
| Chunked.ReadContentChunked | 3rdparty/httplib/httplib.cc:1516-1554 | for every input, receiver and schedule of short reads the loop does what the decoding says; after a read error or a refusal it fails with a prefix of the data |
| Chunked.ReadChunk | 3rdparty/httplib/httplib.cc:1539-1547 | one round of the loop: data, line break, next line |
| Chunked.ReadWithLength | 3rdparty/httplib/httplib.cc:1464-1484 | short reads add up to the wanted length unless the input ends, or the receiver or the progress callback refuses to go on |
| Chunked.LineReader.GetLine | 3rdparty/httplib/httplib.cc:334-358 | one line with its line feed, or the rest of the input |
| Chunked.LineReader.Append | 3rdparty/httplib/httplib.cc:360-371 | the fixed buffer spills into a growing one without loss |
| Chunked.FromIToHex | 3rdparty/httplib/httplib.cc:41-49 | the digit loop prints the number in base 16 |
| Chunked.Sink.Write | 3rdparty/httplib/httplib.cc:1748-1771 | one write sends one chunk, or nothing when it is empty, which also ends the loop |
| Chunked.Sink.Done | 3rdparty/httplib/httplib.cc:1773-1798 | the terminator, once |
| Chunked.WriteContentChunked | 3rdparty/httplib/httplib.cc:1739-1816 | the provider loop sends what the calls amount to until a shutdown; a failed or cancelled one leaves a prefix of it |
| Wire.WriteData | 3rdparty/httplib/httplib.cc:1653-1661 | short writes add up to the data; a failure leaves a prefix |
| Query.DecodeEncode | 3rdparty/httplib/httplib.cc:164-183 | decoding undoes encoding for every byte string, whatever a plus sign means |
| Query.QueryBack | 3rdparty/httplib/httplib.cc:1851-1884 | a query text made from parameters with plain keys is read back as these parameters, identical pairs merged |
| Query.Utf8IsUtf8 | 3rdparty/httplib/httplib.cc:51-80 | the four-digit escape yields UTF-8: a decoder that rejects all that section 3 of RFC 3629 forbids recovers the code, and only surrogates and numbers outside the code space give nothing |
| Query.Utf8Unique | 3rdparty/httplib/httplib.cc:51-80 | the converse: every well-formed character is what the code makes of its number |
| Query.EncodeQueryParam | 3rdparty/httplib/httplib.cc:164-183 | the loop keeps letters, digits and nine marks, and escapes every other byte |
| Query.DecodeUrl | 3rdparty/httplib/httplib.cc:217-252 | the index loop decodes two- and four-digit escapes and leaves malformed ones |
| QueryForms.UrlDecoded | 3rdparty/httplib/httplib.cc:217-252 | every text is decoded piece by piece: escapes of two digits in any case, escapes of four digits as UTF-8, plus signs as blanks where wanted, percent signs that start nothing as themselves |
| QueryForms.EncodedMeans | 3rdparty/httplib/httplib.cc:164-183 | wherever it stands, an unreserved character is kept and every other byte becomes a percent sign with its two digits in capitals |
| Query.FromHexToI | 3rdparty/httplib/httplib.cc:24-39 | the value of exactly that many hexadecimal digits, or failure |
| Query.SplitText | 3rdparty/httplib/httplib.cc:288-306 | the trimmed non-empty pieces between delimiters |
| QueryForms.FieldsSplit | 3rdparty/httplib/httplib.cc:288-306 | splitting gives the texts between the delimiters without the blanks around them, and without the empty ones |
| Query.TrimBounds | 3rdparty/httplib/httplib.cc:272-281 | the bounds without blanks cross exactly when nothing is left |
| Query.ParamsToQueryStr | 3rdparty/httplib/httplib.cc:1851-1861 | pairs in order, keys as they are, values encoded |
| Query.ParseQueryText | 3rdparty/httplib/httplib.cc:1863-1884 | each different piece is added once, after the entries with its key |
| QueryForms.PieceAbsorbed | 3rdparty/httplib/httplib.cc:1863-1884 | a piece of parts between equals signs, with blanks around them and any escapes in them: the first part that is not empty is the key and the last of the others the value, the pair that is meant is added unless the same piece has been seen, and without such a part nothing is |
| QueryForms.EmplacedMeans | 3rdparty/httplib/httplib.cc:1863-1884 | a new entry goes behind those with its key, and the keys stay in order |
| Base64.Encode | 3rdparty/httplib/httplib.cc:85-111 | the accumulator loop, with 32-bit wrap-around, equals the encoding by groups of three bytes (section 4 of RFC 4648) |
| Base64.DecodeEncoded | 3rdparty/httplib/httplib.cc:85-111 | a reference decoder inverts the encoding |
| Base64.EncodedLength | 3rdparty/httplib/httplib.cc:108-110 | the length is four for each started group of three bytes |
| Base64.SymbolsAreStandard | 3rdparty/httplib/httplib.cc:86-87 | the symbols are the standard alphabet, in order |
| Base64.Accumulate | 3rdparty/httplib/httplib.cc:95-103 | wrapping the accumulator keeps the bits that are still to be written |
| Inventory.Save | src/char/char.cpp:618-741 | for every table, owner and item array: other owners' rows are untouched; for every key the owner's rows hold exactly the non-empty entries, in order; rows keep their ids as far as entries go; nothing is issued or changed when the rows held the entries already |
| Inventory.SaveIsReplaceAll | src/char/char.cpp:568-571 | the rows are, as a multiset over all saved columns, the non-empty entries: what deleting and inserting everything would store |
| Inventory.RecordsOnly | src/char/char.cpp:639-661 | a row records an entry in every column of its table, and nothing in the columns the table does not have |
| Inventory.SaveLoadSave | src/char/char.cpp:618-841 | a load after a save gives the non-empty entries, permuted but in order within each key, and a second save of the same entries issues no statement |
| Inventory.CompareRow | src/char/char.cpp:621-690 | one stored row is kept, updated or deleted, and the correspondence of matched entries and surviving rows is kept |
| Inventory.AlreadyThere | src/char/char.cpp:624-653 | when the rows already hold the entries, the first match of a row is equal to it |
| Inventory.FindMatch | src/char/char.cpp:624-636 | the first entry with the row's key that has not been matched |
| Inventory.SameColumns | src/char/char.cpp:639-653 | the comparison covers every saved column of the table |
| Inventory.InsertUnmatched | src/char/char.cpp:705-736 | one statement inserts the unmatched entries in order, none when there are none |
| Inventory.Load | src/char/char.cpp:838-841 | the first rows in id order, as many as fit |
| Fame.RunKeepsTop | src/char/char_mapif.cpp:1131-1159 | over any run of positive reports that lower nobody's fame the list shows the best of all players: descending, distinct ids, filled entries first, fames current, nobody outside above the last entry |
| Fame.RunIsSortAndTake | src/char/char.cpp:1994-2050 | after any such run the list shows the fames that sorting all players and taking the first ones would show |
| Fame.UpdateKeepsTop | src/char/char_mapif.cpp:1131-1159 | one report keeps the list the best of all |
| Fame.TopIsUnique | src/char/char_mapif.cpp:1131-1159 | two lists of the best of the same players show the same fames |
| Fame.TakeTopIsTop | src/char/char.cpp:2005-2017 | the list read from the table in descending order is the best of all |
| Fame.UpdateKeepsTopExactly | src/char/char_mapif.cpp:1131-1159 | for every report: the list is the best of all afterwards if and only if the fame is positive and the player is not listed, or does not fall, or falls to the fame of another entry, or to below all entries but not below a player outside; or the fame is none, the player is not listed, and the list has no empty entry |
| Fame.RunKeepsTopExactly | src/char/char_mapif.cpp:1131-1159 | over any run of any reports: the list is the best of all after every report if and only if each report meets that condition |
| Fame.NoFameOutside | src/char/char_mapif.cpp:1131-1159 | a player without fame who is not listed is put into an empty entry, and kept out when there is none |
| Fame.NoFameIsListed | src/char/char_mapif.cpp:1131-1159 | a list of one empty entry that then shows a player without fame |
| Fame.FallingKeepsTop | src/char/char_mapif.cpp:1151-1156 | when a listed player falls to a positive fame, the list is the best of all if and only if the first entry not above that fame equals it, or, with all above it, no player outside is |
| Fame.FallingToZero | src/char/char_mapif.cpp:1151-1156 | a listed player who falls to nothing stays in the list, which is never the best of all then; with an empty entry in the list the player goes behind it and the map servers are sent exactly the others, otherwise an entry without fame is sent |
| Fame.FallingBelowOutsider | src/char/char_mapif.cpp:1151-1156 | a list of two in order that misses a player |
| Fame.FallingKeepsOrder | src/char/char_mapif.cpp:1151-1156 | when a listed player's fame falls, the list stays in order exactly when no entry has as little fame or the first such entry equals it |
| Fame.FallingBreaksOrder | src/char/char_mapif.cpp:1151-1156 | a list of three that falls out of order |
| Fame.Update | src/char/char_mapif.cpp:1131-1159 | for every list: the in-place update computes the updated list, and its notice makes a map server's copy equal to what the list sends |
| Fame.UpdatedEntries | src/char/char_mapif.cpp:1131-1159 | entry by entry: where the player ends up, which entries move, and which stay |
| Fame.ArrMove | src/common/db.hpp:999-1011 | one entry moves, those between shift by one |
| Fame.SendRanking | src/char/char_mapif.cpp:108-127 | the filled entries are sent |
| Achievement.Save | src/char/int_achievement.cpp:196-242 | with distinct ids the character's rows become exactly the submitted entries, new ones only when they have an id and are not blank; other characters are untouched; no statement is issued exactly when the table stays as it is |
| Achievement.SaveTwice | src/char/int_achievement.cpp:196-242 | the second of two saves issues no statement |
| Achievement.SaveEntry | src/char/int_achievement.cpp:208-228 | one entry is updated, added or ignored, and crossed off the stored ones in place |
| Achievement.CrossOff | src/char/int_achievement.cpp:218-222 | the entries behind the crossed-off one move up |
| Achievement.DeleteLeft | src/char/int_achievement.cpp:231-234 | exactly the stored entries that were not submitted are deleted |
| Achievement.Table.Add | src/char/int_achievement.cpp:105-142 | a blank entry is not stored |
| Achievement.Table.FromSql | src/char/int_achievement.cpp:28-80 | every row of the character, once |
| ThreadPool.JobsRunInOrder | 3rdparty/httplib/httplib.h:550-594 | on every interleaving jobs are taken in the order of their enqueuing, none twice; while some worker sleeps, at least as many are about to look at the queue as jobs wait in it, so a job never waits while all sleep |
| ThreadPool.ShutdownFinishesJobs | 3rdparty/httplib/httplib.h:556-569 | when the shutdown of a pool with workers returns, every job enqueued before it has finished |
| ThreadPool.ShutdownMoves | 3rdparty/httplib/httplib.h:556-569 | after notify_all some step of a worker or of the join is possible until the shutdown returns |
| ThreadPool.ShutdownIsBounded | 3rdparty/httplib/httplib.h:556-569 | after notify_all only boundedly many such steps are possible |
| ThreadPool.QueueMoves | 3rdparty/httplib/httplib.h:575-592 | a queued job is never stuck while a worker is left |
| ThreadPool.NoWorkersNoJobs | 3rdparty/httplib/httplib.h:540-569 | a pool without workers shuts down and forgets its jobs |
| ThreadPool.StepKeepsInv | 3rdparty/httplib/httplib.h:540-594 | what every step of every thread keeps |
| Session.CharServer.Run | src/char/char.cpp:97-247 | after every run of handlers and timers: pending disconnect timers and waiting entries correspond one to one, a waiting entry is on a server, and the history respects the tickets |
| Session.TicketsAreSingleUse | src/char/char_mapif.cpp:1024-1077 | each admission has its own issue of a ticket before it, after every earlier admission and kick of the account; to a map server it matches that ticket's character and first login id |
| Session.IssuedBetween | src/char/char_logif.cpp:614-615 | between two admissions of an account, and between a kick and the next admission, a ticket is issued |
| Session.HeldMeans | src/char/char_clif.cpp:796-808 | a ticket held was issued, and nothing happened to the account's tickets since |
| Session.CharServer.SetCharSelect | src/char/char.cpp:97-119 | the entry goes to the character selection and its timer is cancelled |
| Session.CharServer.SetCharOnline | src/char/char.cpp:121-160 | the entry goes to the server, its timer is cancelled, and another map server that has the player is told |
| Session.CharServer.SetCharOffline | src/char/char.cpp:162-208 | the timer is cancelled and only the character that is online is taken off its server |
| Session.CharServer.AllServerLost | src/char/char.cpp:210-220 | every entry of a lost server is marked unknown, in any order of visiting |
| Session.CharServer.SetAllOffline | src/char/char.cpp:222-241 | only entries that wait for nothing and are on no map server are taken offline |
| Session.CharServer.RegMapUser | src/char/char_mapif.cpp:363-399 | exactly the reported players are on the server, each with the character of the last report about the account; the others that were are marked unknown |
| Session.CharServer.ReqSaveChar | src/char/char_mapif.cpp:408-446 | a save of a character that is not online marks it online; a final save takes it offline |
| Session.CharServer.TimerFires | src/char/char.cpp:2181-2190 | a timer that fires finds the entry that waits for it, and takes it offline |
| Session.CharServer.Cleanup | src/char/char.cpp:2192-2215 | only entries that are not connected and on no known server are dropped, and a timer goes exactly when its entry does |
| Session.CharServer.RequestCharSelect | src/char/char_mapif.cpp:467-505 | a ticket for the selection replaces any other; the entry leaves its server |
| Session.CharServer.RequestChangeMapServer | src/char/char_mapif.cpp:609-678 | a ticket for the character is issued and the entry moves, or nothing happens |
| Session.CharServer.RequestAuth | src/char/char_mapif.cpp:1004-1091 | admission needs the ticket's character and first login id and uses the ticket up; a vendor that stays behind needs none |
| Session.CharServer.AskKick | src/char/char_logif.cpp:582-617 | the ticket is revoked; a player on a map server gets a disconnect timer, unless one is pending |
| Session.CharServer.AuthOk | src/char/char.cpp:1962-1992 | accepted unless the account is on a map server, which starts the timer, or another connection is alive |
| Session.CharServer.RequestConnect | src/char/char_clif.cpp:757-823 | a returning player is admitted by both login ids, and the ticket is used up |
| Session.CharServer.SelectChar | src/char/char_clif.cpp:1024-1158 | the character is online on an unknown server while it loads, and a ticket is issued when a map server is found |
| Session.CharServer.ClientEof | src/char/char_clif.cpp:1576-1588 | a closed connection takes an account that is on no server offline |
| Pincode.ShuffledIsPermutation | src/char/char.cpp:2153-2164 | for every seed the table is a permutation of the ten digits |
| Pincode.TableInClosedForm | src/char/char.cpp:2153-2164 | the table comes from ten exchanges whose positions are given by the seeds in closed form, modulo 2^32 |
| Pincode.TableOfZero | src/char/char.cpp:2153-2171 | the table of seed 0, and a code decrypted with it |
| Pincode.DecryptInjective | src/char/char.cpp:2166-2171 | for a fixed seed different codes decrypt differently |
| Pincode.DecryptSurjective | src/char/char.cpp:2166-2171 | for a fixed seed every code is the decryption of some code |
| Pincode.Decrypt | src/char/char.cpp:2139-2173 | accepts exactly codes that start with four digits and translates them through the table |
| Pincode.SwapEntries | src/char/char.cpp:2159-2163 | three exclusive ors swap two entries |

## Left out

- ConfigRoundTrip.ReadWrite: the tree has no floating point and no typeless settings. A float is kept as the text it was read from; ten digits do not round trip.
- ConfigLexer.Scanner.Lex: the rules are modelled, not the packed tables that drive them; the patterns were recovered from these tables. Line numbers and the current file of a token are not modelled.
- ConfigReader.ParseTokens: the tokens are scanned before they are parsed, and the parser is a recursive one for the same grammar instead of the table-driven stack machine with its depth limit.
- ConfigFiles.ReadConfig: the include directory prefix is not modelled (files are keyed by the name in the directive), and neither are error texts.
- LibConfig.Config.Remove: the memory of removed settings is not modelled: they stay in the store, unlinked. Hooks and destructors are left out.
- LibConfig.Config.Add: a missing name in a group that has members is outside the contract; the code would compare it with their names.
- LibConfig.Config.SetScalar: the conversions between integers and floating point numbers are parameters.
- LibConfig.Config.NameCompare: characters are compared as unsigned; only the sign of a non-zero result could differ.
- ConfigTexts.ReadSpelled: number tokens have values that fit their type (`ConfigSpelling.LargeNumber` is about the others), and strings and file names have no NUL in their plain text.
- ConfigCopy.Copy: the source is the store of another configuration, which does not change; a setting without a name is not copied into a group.
- ConfigLookup.LookupFinds: a list has at most 2^32 elements, the range of its length field.
- Multipart.Parser.Parse: the callbacks are those of the server, modelled by the parts they collect; the content callback never reaches the maximal size of a string. The regular expression is a hand-written matcher for the same pattern, with its shortest-match groups.
- MultipartForms.FormReceived: header lines have no line break in them and are shorter than the limit, names have no quotes (`MultipartHeaders.DispositionMatches` is about those with), contents do not have the delimiter.
- MultipartRoundTrip.ReceivedAsSent: names and file names without quotes and line breaks, trimmed content types without line breaks, contents without the delimiter, a boundary of the characters the client accepts.
- Chunked.ReadContentChunked: the answer of the receiver is a function of all it has been handed.
- Chunked.WriteContentChunked: without compression: a compressor is foreign code.
- Query.QueryBack: keys are made of letters, digits, minus and underscore, because the code does not encode them.
- Inventory.Save: no SQL errors, and no truncation of values to the width of a column. The item type in the array is a value; the array itself is not changed.
- Fame.RunKeepsTop: reports are positive and lower nobody's fame; `Fame.RunKeepsTopExactly` is about all reports. Names are taken from the report.
- Achievement.Save: submitted ids are distinct; with a repeated id the code would insert a row twice, which the table refuses. The score of an entry is not stored.
- ThreadPool.StepKeepsInv: a critical section is one step after the mutex has been taken; jobs do not throw and do not enqueue.
- Session.CharServer.Run: records are values in maps, not shared objects. Per-server player counts, messages to clients and servers, ticket fields that are never compared, and the SQL side of going on- and offline are left out; whether a character loads, a server is active or a connection is alive comes with the event.
- Session.CharServer.SelectChar: the checks before a character is marked online (slot, ban, deletion date) only reject, and are left out.
- Pincode.Decrypt: the code is a string up to its NUL.
- Sockets, TLS, compression, name lookup, logging, routing and the request overloads of the HTTP client and server.
- Character creation, deletion and renaming, database integrity checks, configuration of the server, console commands, packet layouts.
