# Verified model of the PostgreSQL gateway's cursor and text handling

The gateway lets PostgreSQL clients talk to Exasol. This project models, in Dafny, the parts of it that keep state or
cut up text by hand, and proves what they promise.

* **Cursors** (`Batches`, `Walk`, `Directions`, `Cursor`, `Commands`, `Runs`). A cursor holds a materialised result,
  flat or in record batches, and a position in -1..n. `Walk` defines what movement means: single steps over one flat
  sequence of rows. The class `Cursor.GatewayCursor` follows the code's arithmetic and is proved to refine that walk
  for all ten directions; `Runs` follows whole command sequences, including NO SCROLL cursors driven by the parser.
* **Session** (`Session`). The registry of cursors is a class over cursor objects whose handlers are tied to functions
  on values; a state machine built from the same functions lets the three parts of DECLARE and the two parts of SET search_path
  interleave with everything else.
* **Describe/Execute cache** (`Extended`). A class for the handlers and runs over Bind, Close, Describe and Execute.
* **Rendering and splitting** (`Portal`, `Substitution`, `PortalStatements`, `Statements`, `Quotes`). What sequential
  placeholder replacement computes on any text, and exactly when it is simultaneous substitution; splitting at
  top-level semicolons; both together.
* **Scanners** (`SearchPath`, `SelectItems`, `Comments`, `Words`, `Script`). Each loop is proved against a recursive
  reading of the text, and the readings are compared with one reference scan of quotes in `Quotes`.
* **Cleaning** (`Cleaning`, `Removers`). What classification does to every statement before it is read, which the round
  trips of `Commands` and `SearchPath` go through, and when it agrees with the comment stripping used for detection.
* **Paged fetch** (`PagedFetch`). The paging loop and the column-to-row transposition.

Text is a sequence of Unicode scalar values and positions count characters, where the code counts bytes. String and
identifier lexing follows sections 4.1.1 and 4.1.2.1 of the PostgreSQL documentation. Unchecked 64-bit arithmetic wraps,
as in a release build. The backend, the server of pages and the outcome of a portal's execution are arbitrary functions
or parameters.

Where the code and its documentation disagree the model follows the code: `specs/decision-log.md` says multi-schema
search paths are rejected, the code keeps the first entry.

Findings, each with its input or its exact condition below:

* a portal bound again after Describe still delivers the old statement's response;
* a text parameter that names a smaller placeholder is substituted again, which can bring another parameter out of its
  literal and change the number of statements; only templates whose placeholders are all `$1` are safe from it;
* a placeholder inside quotes lets a parameter change the number of statements;
* a number behind `$a` in place of `$b`, with b > 10a, can complete `$a` to another index;
* a non-hold DECLARE in progress when a transaction ends can leave a cursor behind, and two schemas opened and recorded
  in opposite order make SHOW search_path disagree with the backend. Both need two statements of one session to
  overlap, and that input is not shown to be real: a handler holds its client exclusively for the whole call
  (`src/pg_server.rs:339-343`) and each connection is one task (`src/main.rs:68`), so as the code stands statements of
  one session follow each other;
* a single-quoted search path is not unescaped;
* cleaning takes comments out of quoted text: `FETCH NEXT FROM "a--b"` addresses the cursor `a`, `SET search_path =
  'a--b'` and `SET search_path = "a--b"` do not open the schema `a--b`, and `DECLARE c CURSOR FOR SELECT '--x'` executes
  `SELECT '`;
* a delimited schema name with a line feed in it is not recognised as a search path;
* a delimited cursor name with white space in it is rejected, and one with double quotes at its ends loses them;
* the select-list scanner takes a single quote inside a delimited identifier for the start of a literal, counts
  parentheses there, and cuts at a comma there (`"a,b", c`);
* the smallest 64-bit count never settles, and RELATIVE can overflow.

`dafny verify dfyconfig.toml` checks the project.

## Model

| member | source | states |
|---|---|---|
| Batches.SliceBatches | src/pg_server.rs:1694-1723 | flattening the slices gives the rows `start..end` of the flattened batches, cut at the end, for any batching; no slice is empty |
| Batches.ReverseSliceBatches | src/pg_server.rs:1725-1732 | flattening the reversed slices gives that window of rows in reverse order, with no empty batch |
| Batches.ReverseBatchExact | src/pg_server.rs:1734-1749 | reversing one batch is exact if and only if its length fits the 32-bit row index |
| Walk.WalkForwardEnds | src/pg_server.rs:1458-1482 | c single steps ahead from p end at min(p+c, n) and visit exactly the window p+1..p+c+1, in order |
| Walk.WalkBackwardEnds | src/pg_server.rs:1516-1546 | c single steps back end at max(p-c, -1) and visit the window before p in reverse order |
| Directions.RecursionSettles | src/pg_server.rs:1438-1504 | the forward/backward mutual recursion ends for a count if and only if the count is not the smallest 64-bit integer |
| Directions.MovementStays | src/pg_server.rs:1418-1614 | every direction keeps the position in -1..n |
| Directions.WalksStepByStep | src/pg_server.rs:1422-1504 | NEXT, PRIOR and every counted FORWARD, BACKWARD or bare count are that many single steps ahead or back, a negative count going the other way; a zero count stays and looks at the current row |
| Directions.AbsoluteFromStart | src/pg_server.rs:1569-1584 | ABSOLUTE k ends where k single steps from before the first row end, and returns the last row they visit, or nothing if they are cut short, from any place |
| Directions.AbsoluteBackFromEnd | src/pg_server.rs:1569-1584 | ABSOLUTE -k does the same with k single steps back from behind the last row |
| Directions.FirstAndLast | src/pg_server.rs:1426-1427 | FIRST is one step from before the first row, LAST one step back from behind the last, and ABSOLUTE 0 stands before the first row with no row |
| Directions.RelativeZero | src/pg_server.rs:1586-1614 | RELATIVE 0 stays and looks at the current row |
| Directions.ScrollExact | src/pg_server.rs:1751-1761 | a SCROLL cursor refuses nothing; a NO SCROLL cursor answers exactly NEXT, ALL, FORWARD and counts of zero or more, just as a SCROLL cursor does |
| Directions.RelativeExact | src/pg_server.rs:1586-1614 | RELATIVE ends at the clamped sum of position and offset if and only if that sum is a 64-bit integer |
| Directions.ForwardAdds | src/pg_server.rs:1438-1482 | FORWARD a then FORWARD b is FORWARD a+b in position, rows and count, for FETCH and for MOVE |
| Directions.BackwardAdds | src/pg_server.rs:1496-1546 | BACKWARD a then BACKWARD b is BACKWARD a+b in position, rows and count |
| Directions.RelativeIsForward | src/pg_server.rs:1586-1614 | RELATIVE k ends where FORWARD k ends and returns its last row, or nothing if FORWARD was cut short |
| Directions.RelativeIsBackward | src/pg_server.rs:1586-1614 | RELATIVE -k ends where BACKWARD k ends and returns its last row, or nothing if BACKWARD was cut short |
| Directions.AbsoluteFromEnd | src/pg_server.rs:1569-1584 | ABSOLUTE -k is ABSOLUTE n+1-k for every k in 1..n |
| Directions.ForwardAll | src/pg_server.rs:1485-1493 | FORWARD ALL and ALL are a forward walk of any length that reaches the end, and return all rows ahead |
| Directions.BackwardAll | src/pg_server.rs:1548-1566 | BACKWARD ALL is a backward walk of any length that reaches the front, and returns all rows behind in reverse |
| Directions.MoveLikeFetch | src/pg_server.rs:1438-1614 | MOVE ends where FETCH ends and reports FETCH's count, except exactly for a zero count on a row |
| Cursor.GatewayCursor.Forward | src/pg_server.rs:1438-1494 | for every count the cursor ends where the walk ends and returns the rows it visits, on both kinds of data |
| Cursor.GatewayCursor.Backward | src/pg_server.rs:1496-1567 | the same for backward movement, rows in visiting order |
| Cursor.GatewayCursor.Seek | src/pg_server.rs:1590-1614 | the position becomes the clamped target and the row there, if any, is returned |
| Cursor.GatewayCursor.GoAbsolute | src/pg_server.rs:1569-1584 | the cursor answers as the ABSOLUTE of the walk, which Directions.AbsoluteFromStart, AbsoluteBackFromEnd and FirstAndLast describe by single steps |
| Cursor.GatewayCursor.GoRelative | src/pg_server.rs:1586-1588 | RELATIVE seeks position plus offset, with the 64-bit sum wrapping |
| Cursor.GatewayCursor.Apply | src/pg_server.rs:1418-1436 | all ten directions refine the walk over the flat rows; a NO SCROLL cursor refuses the backward ones unchanged |
| Commands.ParseIntText | src/policy.rs:325-325 | reading a printed 64-bit integer gives it back |
| Commands.PrintParses | src/policy.rs:314-359 | printing a direction and parsing it gives the direction back |
| Commands.ParseI64Exact | src/policy.rs:325-325 | a word is read as a number if and only if it is an optional sign and digits that denote that number, and the number is a 64-bit integer |
| Commands.DirectionExact | src/policy.rs:314-359 | the words between command and name are read as a direction if and only if they say it: nothing, NEXT and a lone FORWARD or BACKWARD included, in any case |
| Commands.PositionExact | src/policy.rs:290-312 | a command's words are read as direction and cursor if and only if they are the command, words that say the direction, perhaps FROM or IN, and the name |
| Commands.ParserRange | src/policy.rs:314-359 | the parser produces exactly the directions that do not walk by a negative count (the smallest integer aside) |
| Commands.CommandRoundTrip | src/policy.rs:290-312 | the text of a command in any of its spellings, no direction or a lone FORWARD or BACKWARD included, with FROM, IN or neither, its words in any case, any white space around and between them and semicolons at its end, is cleaned and parsed to its direction and cursor name, if no comment stands in the name |
| Commands.BareNameRoundTrip | src/policy.rs:290-375 | in such a text a name without double quotes, semicolon at its end or comment is the cursor's name as written |
| Commands.QuotedNameRoundTrip | src/policy.rs:290-375 | in such a command text a delimited cursor name is read back if and only if it holds no white space and no comment and neither begins nor ends with a double quote |
| Commands.NoCommentedName | src/policy.rs:124-175 | no command text whatever addresses a cursor whose name holds a comment |
| Commands.DashesAddressAnother | src/policy.rs:470-477 | a delimited name u--v, such as a--b, makes the command address the cursor u |
| Runs.Replay | src/pg_server.rs:1418-1614 | over any sequence of commands the cursor reports what the walk over its flat rows reports |
| Runs.Lockstep | src/pg_server.rs:1418-1681 | an Arrow and a typed cursor over the same flat rows give the same errors, rows, counts and positions over every run |
| Runs.NoScrollCounts | src/pg_server.rs:1418-1494 | on a NO SCROLL cursor driven by parsed commands the position never decreases, and counts add up to the rows passed plus one per zero-count FETCH on a row |
| Runs.NoScrollRows | src/pg_server.rs:1418-1494 | without such repeats a FETCH-only run returns exactly the rows passed, in order, none twice and none left out |
| Runs.NoScrollFromStart | src/pg_server.rs:1418-1494 | from a fresh cursor counts sum to min(p+1, n), and fetched rows are the first min(p+1, n) rows |
| Session.OpensTheSchema | src/pg_server.rs:229-230 | the schema quoted into OPEN SCHEMA is read back as the schema asked for |
| Session.SessionState.InsertDeclared | src/pg_server.rs:388-406 | the insert re-checks the name: an existing cursor stays as it is, otherwise a cursor with the given rows, SCROLL and HOLD is added before its first row |
| Session.SessionState.DeclareCursor | src/pg_server.rs:339-407 | an undisturbed DECLARE refuses, fails, or adds a cursor on the outcome's rows, batches included, with the SCROLL and HOLD asked for; it changes nothing unless it adds one |
| Session.SessionState.FetchCursor | src/pg_server.rs:409-456 | FETCH moves the named cursor only and replies with the rows its step returns, or with the step's error and no change |
| Session.SessionState.MoveCursor | src/pg_server.rs:458-482 | MOVE moves the named cursor only and replies with the count of its step, or with the step's error and no change |
| Session.SessionState.CloseCursor | src/pg_server.rs:484-512 | CLOSE removes exactly the named cursor, or reports that it does not exist |
| Session.SessionState.CloseAll | src/pg_server.rs:497-498 | CLOSE ALL leaves no cursor |
| Session.SessionState.ClearNonHoldCursors | src/pg_server.rs:1405-1415 | a transaction end keeps exactly the hold cursors, positions included |
| Session.SessionState.SetSearchPath | src/pg_server.rs:224-248 | when nothing comes between, the session's schema and the backend's are the one asked for if the backend opens it, and stay as they were otherwise |
| Session.DeclaresConserved | src/pg_server.rs:359-401 | over any interleaving, successful DECLAREs of a name minus its removals is whether it exists: no DECLARE replaces a cursor |
| Session.AtMostOneWins | src/pg_server.rs:359-401 | of racing DECLAREs of one name at most one succeeds unless the name is freed in between |
| Session.Isolated | src/pg_server.rs:409-512 | a cursor alive through a run keeps its rows, SCROLL and HOLD and stands where its own FETCH and MOVE commands alone take it |
| Session.RepliesIsolated | src/pg_server.rs:409-512 | over any interleaving the replies to a living cursor's FETCH and MOVE commands are, in order, the rows and counts its own commands alone get from its rows |
| Session.DeclareUndisturbed | src/pg_server.rs:339-407 | in the state machine a DECLARE begins exactly for a supported query and a free name, and leaves a cursor on the rows the query answers with, as asked for, exactly if it answers with rows |
| Session.OnlyHeldSurvive | src/pg_server.rs:268-401 | after a transaction end only hold cursors exist until another non-hold DECLARE begins, over every run, if and only if no non-hold DECLARE was in progress at that end |
| Session.StraddlingDeclareSurvives | src/pg_server.rs:371-401 | the run that shows it: a non-hold DECLARE begun before the transaction end and inserting after it |
| Session.SyncedInOrder | src/pg_server.rs:231-243 | over any run, SHOW keeps up with the backend's schema at every point if and only if no record overtakes the record of a different schema opened right before |
| Session.SchemaIsLastOpened | src/pg_server.rs:224-263 | in a run that records schemas in order, SHOW answers the schema opened last, or public, whenever none is in flight |
| Session.RacingPathsExact | src/pg_server.rs:231-243 | with schemas opened but not recorded, SHOW ends up with the backend's schema in whatever order they are recorded if and only if all of them are that schema |
| Session.RacingPathsDisagree | src/pg_server.rs:231-243 | two schemas recorded in the opposite order leave SHOW at the first and the backend on the second |
| Session.AlwaysPositioned | src/pg_server.rs:388-456 | in every reachable state each cursor stands before, on or after its rows |
| Extended.ExtendedSession.DescribePortal | src/pg_server.rs:1229-1246 | Describe runs the bound statement once and caches the response under the portal's name, or leaves the cache alone if there is none |
| Extended.ExtendedSession.OnExecute | src/pg_server.rs:1146-1213 | Execute delivers and drops the cached response, or runs the portal's own statement and delivers what it answers; it sends a row description only if none was sent, and drops the unnamed portal |
| Extended.ExecutionsCounted | src/pg_server.rs:1146-1265 | over any run, executions are the Describes plus the Executes that miss the cache |
| Extended.DeliveredOnce | src/pg_server.rs:1164-1172 | over any run no response is delivered twice |
| Extended.DescribedOnce | src/pg_server.rs:1164-1184 | over any run every query result that is delivered is described exactly once |
| Extended.ExecuteDeliversDescribed | src/pg_server.rs:1146-1246 | an Execute after a Describe delivers the very response described; it answers the bound statement if and only if the portal was not bound again in between |
| Extended.ExecuteRunsLastBind | src/pg_server.rs:1164-1172 | over any run an answered Execute of a bound portal with nothing cached delivers the backend's answer to the statement of the last Bind of that name |
| Extended.DeliveredIsBound | src/pg_server.rs:1146-1246 | over any run every delivered response belongs to a Bind of the executed name |
| Extended.NamedPortalStays | src/pg_server.rs:1154-1211 | over any run a named portal exists if and only if the last event that binds or closes it binds it |
| Portal.LiteralReadsBack | src/pg_server.rs:1923-1925 | removing the quotes and undoubling gives the parameter text back |
| Portal.ParameterReadsBack | src/pg_server.rs:1892-1976 | read as SQL, as NULL, a boolean, an integer or a literal, a rendered parameter is the parameter; exactly the malformed one is not rendered |
| Portal.RenderPortalSql | src/pg_server.rs:1882-1890 | rendering succeeds if and only if no parameter is malformed, fails with 08P01 otherwise, and is the replacement of `$n` down to `$1` |
| Text.PrefixIsSmaller | src/pg_server.rs:1884-1887 | a decimal index that is a proper prefix of another index is smaller |
| Portal.RenderedExactly | src/pg_server.rs:1882-1890 | for every statement text and all parameters but non-negative numbers, texts with `$` included, rendering is one pass in which each `$` takes the longest index that its digits begin with, a `$` in a value being filled by the values of smaller index |
| Substitution.SubstitutionExact | src/pg_server.rs:1882-1890 | rendering a canonical template is the simultaneous substitution for every choice of text parameters if and only if every placeholder is `$1`, and then for every choice of parameters |
| Substitution.ParametersExact | src/pg_server.rs:1882-1890 | given parameters other than non-negative numbers are substituted simultaneously in every canonical template if and only if no `$` in a value is followed by digits that begin with an index smaller than the value's own |
| Substitution.AdjacencyExact | src/pg_server.rs:1882-1890 | for all parameters without a `$`, numbers included, it is the simultaneous substitution if and only if no `$a` is directly followed by a `$b` with b > 10a |
| Substitution.RenderIsSubstitution | src/pg_server.rs:1882-1890 | for given values: it is the simultaneous substitution if they hold no `$` and no number completes the placeholder in front of it to an index that is replaced later |
| Substitution.NonNumericIsApart | src/pg_server.rs:1899-1920 | literals, NULL and booleans never need the last condition, adjacent placeholders included |
| Substitution.DollarInValueIsReplacedAgain | src/pg_server.rs:1884-1887 | two text parameters, the second naming `$1`, for which the two differ |
| Substitution.AdjacentPlaceholdersMerge | src/pg_server.rs:1884-1887 | on `$1$11` with 0 as the last parameter the two differ: the tenth value is sent |
| PortalStatements.RenderedIsNeutral | src/pg_server.rs:1892-1976 | every rendered parameter is closed under quotes, has no top-level semicolon and no padding |
| PortalStatements.SplitCommutes | src/pg_server.rs:2360-2396 | splitting a filled-in template gives the filled-in pieces of the template |
| PortalStatements.RenderedStatements | src/pg_server.rs:1882-1925 | where rendering is that substitution and placeholders are unquoted, the statements of the rendered text are the rendered statements of the template, so Parse accepts one if and only if it accepts the other |
| PortalStatements.StatementCountExact | src/pg_server.rs:1882-1925 | the statement count of a template survives every choice of text parameters if and only if all placeholders stand outside quotes and all of them are `$1` |
| PortalStatements.PlainCountExact | src/pg_server.rs:1882-1925 | it survives every choice of texts without a `$` if and only if all placeholders stand outside quotes |
| PortalStatements.ParameterBreaksOut | src/pg_server.rs:1882-1890 | the unquoted template `$1 $2` is one statement and renders to two for the texts `;` and `$1` |
| Statements.SplitSimpleQuery | src/pg_server.rs:2360-2396 | the loop returns the trimmed non-empty pieces between top-level semicolons |
| Statements.SplitLocates | src/pg_server.rs:2360-2396 | the pieces are ordered disjoint trimmed windows without a top-level semicolon, separated by one, and only white space and top-level semicolons lie outside them |
| Statements.ResplitsToItself | src/pg_server.rs:2360-2396 | splitting a piece again returns just that piece |
| Statements.SplitJoin | src/pg_server.rs:2360-2396 | splitting the semicolon-join of self-contained statements returns the list; the last one may leave a quote open |
| Statements.ParseSql | src/pg_server.rs:1276-1292 | Parse accepts a text unchanged when it splits into at most one statement |
| Statements.ParseExact | src/pg_server.rs:1276-1292 | Parse refuses a text if and only if a top-level semicolon stands between two characters of it that are neither white space nor top-level semicolons |
| Statements.SplitPiecesParse | src/pg_server.rs:1285-1292 | every piece of a simple query is accepted by Parse |
| Quotes.FirstTopIsFirst | src/pg_server.rs:2380-2386 | the separator found is outside quotes and is the first such one |
| Quotes.ScannersAgree | src/policy.rs:548-575 | toggling and escape-skipping scanners give every character that is no quote the same status |
| Quotes.ScannersStopTogether | src/policy.rs:548-575 | so a scanner of any kind stops at the first separator outside quotes |
| SelectItems.SingleScannerAgrees | src/policy.rs:778-780 | the scanner without double quotes sees the same literals on text without double quotes |
| SelectItems.SingleScannerExact | src/policy.rs:778-780 | it sees the same literals as the reference scan up to every position if and only if no delimited identifier holds a single quote |
| SearchPath.TopLevelCommaIndex | src/policy.rs:548-575 | the loop returns the first comma outside quotes, or none |
| SearchPath.OneLevel | src/policy.rs:517-519 | the entry the parser recurses on has no further top-level comma |
| SearchPath.QuotedRoundTrip | src/policy.rs:527-534 | every schema name printed as a delimited identifier is read back; the empty one is invalid |
| SearchPath.QuotedListRoundTrip | src/policy.rs:514-534 | in a list the first name is read back, whatever follows its comma |
| SearchPath.QuotedStatement | src/policy.rs:124-136 | in the text of a SET search_path a delimited schema name is the one opened if and only if it is not empty and holds neither a line feed nor a comment |
| SearchPath.BareStatement | src/policy.rs:124-136 | in the text of a SET search_path an unquoted entry without a comma is the schema opened as written, and DEFAULT in any case is no schema, if and only if it holds neither a line feed nor a comment |
| SearchPath.NoCommentedSchema | src/policy.rs:124-136 | no SET search_path whatever opens a schema whose name holds a comment |
| SearchPath.PathAssignmentExact | src/policy.rs:124-136 | a cleaned text assigns a value to the search path if and only if it is SET, perhaps SESSION, search_path, and an equals sign or TO in front of that value, in any case and white space, on one line |
| SearchPath.LiteralStatement | src/policy.rs:124-136 | in the text of a SET search_path a name printed as a string literal is the one opened if and only if it is not empty and holds no single quote, no line feed and no comment |
| SelectItems.SplitSelectItems | src/policy.rs:772-794 | the loop returns the pieces between commas outside literals and parentheses |
| SelectItems.FirstCommaIsFirst | src/policy.rs:778-786 | an item ends at the first comma outside literals at depth 0, by position |
| SelectItems.ItemScannerExact | src/policy.rs:772-794 | its literals, depth and cuts are at every position those of a reader who knows delimited identifiers if and only if none of them holds a single quote, a parenthesis or, at depth 0, a comma |
| SelectItems.CommaScannersAgree | src/policy.rs:772-794 | without double quotes and parentheses it cuts where the search-path scanner cuts |
| SelectItems.ItemsOfJoin | src/policy.rs:772-794 | splitting a comma-join of self-contained items returns them; only an empty last item is lost |
| Comments.StripSqlCommentsForDetection | src/translator.rs:390-465 | the loop writes every token as it is read, with a space for a comment and its line breaks |
| Comments.StripKeepsTokens | src/translator.rs:390-465 | reading the output again finds the same quoted and code characters in order, and no comment |
| Comments.StripHasNoOpener | src/translator.rs:390-465 | the output has no comment opener outside quotes |
| Comments.StripIsIdentity | src/translator.rs:390-465 | a text is unchanged if and only if the toggle scan finds no comment opener outside quotes |
| Comments.StripIdempotent | src/translator.rs:390-465 | stripping twice is stripping once |
| Comments.StripKeepsNewlines | src/translator.rs:390-465 | newlines are preserved in number and the output is never longer than the input |
| Comments.StripsExactlyComments | src/translator.rs:424-458 | printing any mix of code, quoted tokens and comments and stripping it blanks every comment, whatever its body, and nothing else |
| Comments.TokensAgree | src/translator.rs:396-418 | without comment openers a character is quoted here exactly when the toggle scan says so |
| Cleaning.CommentedMeans | src/policy.rs:101-102 | the comment pattern matches somewhere if and only if the text holds two dashes, or a block comment's opening with a closing behind it |
| Cleaning.NormalizedIsClean | src/policy.rs:470-477 | whatever the statement, the pattern matches nowhere in what is classified |
| Cleaning.NormalizeExact | src/policy.rs:470-477 | the cleaning leaves a statement as it is if and only if the pattern matches nowhere in it, no white space is around it and no semicolon ends it |
| Cleaning.EraseLine | src/policy.rs:101-102 | a line comment becomes one space and ends in front of its line break |
| Cleaning.EraseBlock | src/policy.rs:101-102 | a block comment becomes one space, up to the first closing behind its opening |
| Cleaning.CommentedQuoted | src/policy.rs:101-102 | a quoted token holds a comment if and only if the text in it does: quotes protect nothing |
| Cleaning.DeclaredQueryIsCleaned | src/policy.rs:217-236 | the query a DECLARE executes is the cleaned query, and there is none if nothing is left of it |
| Cleaning.DeclaredQueryExact | src/policy.rs:217-236 | a trimmed query that ends in no semicolon is executed as written if and only if the pattern matches nowhere in it |
| Removers.RemoversAgree | src/translator.rs:390-465 | on text with LF or CRLF line ends stripping and cleaning take the same characters for comments, white space aside, if and only if no comment starts inside quotes and every block comment outside them is closed |
| Removers.RemoversWriteTheSame | src/translator.rs:390-465 | then both write the same characters, white space aside |
| Words.ContainsWord | src/translator.rs:1406-1422 | the loop answers what the skipping search answers |
| Words.IdentifierSearchExact | src/translator.rs:1406-1422 | for a needle of identifier characters it answers whether a word-bounded occurrence exists |
| Words.FindsWordsOf | src/translator.rs:1402-1422 | searching for an identifier says whether it is one of the words of the text, the longest runs of identifier characters |
| Words.IdentCharExact | src/translator.rs:1402-1404 | identifier characters are the ASCII letters in either case, the digits and the underscore |
| Words.OverlapIsUnbounded | src/translator.rs:1411-1419 | an occurrence overlapping an earlier one is never word-bounded |
| Words.SearchExact | src/translator.rs:1406-1422 | the needles for which the search is right on every haystack are exactly those whose self-overlaps continue a word |
| PagedFetch.TransposeData | src/exasol/websocket_transport.rs:298-318 | row r is made of value r of every column and there are as many rows as the longest column has values: a cell is absent exactly where the column has no value or a null, and otherwise reads back as the value |
| PagedFetch.TableRowsShow | src/exasol/websocket_transport.rs:298-328 | each cell of the rows of a table reads back as its value, or is absent exactly for a null |
| PagedFetch.TransposeSlice | src/exasol/websocket_transport.rs:298-318 | transposing a slice of the columns of a table gives that slice of its rows |
| PagedFetch.ParseResultSet | src/exasol/websocket_transport.rs:237-278 | the result is the first message's rows followed by all pages, or the first failure; requests go on below the total, each as far from the one before as its page reports or carries |
| PagedFetch.LoopEnds | src/exasol/websocket_transport.rs:254-274 | the loop ends from every position if and only if every page that arrives moves the position on |
| PagedFetch.FetchesWholeTable | src/exasol/websocket_transport.rs:237-318 | against a server whose every page holds the table's rows from where it was asked, the result is the whole table and the pages partition the rest of it, unless a request fails |
| Script.SplitExasolSql | src/bootstrap.rs:218-276 | the loop over the lines finds the statements of the line-by-line reading |
| Script.StartsCompoundExact | src/bootstrap.rs:236-239 | a line begins a compound statement if and only if it starts with CREATE and has FUNCTION or SCRIPT as a word between spaces, in any case |
| Script.FillerExact | src/bootstrap.rs:229-231 | the lines skipped between statements are exactly the blank ones and those that start with two dashes behind white space |
| Script.LinesUnlines | src/bootstrap.rs:223-223 | lines without line feeds of their own survive being written out, with LF or CRLF line by line and perhaps none behind the last, and read as lines |
| Script.SplitsPrintedScript | src/bootstrap.rs:218-276 | a script of simple and compound statements in any order, with blank and comment lines between, `--/` lines anywhere, either kind of line end and perhaps an unfinished statement at its end, splits back into the list |

## Left out

- Cursor.GatewayCursor.Apply: requires a count other than the smallest 64-bit integer, for which the two methods call each other without end (Directions.RecursionSettles); a result of exactly 2^63 - 1 rows and batches of 2^32 rows or more are excluded by the object's invariant.
- Cursor.GatewayCursor.GoRelative: states the wrapped sum; Directions.RelativeExact says when it is the clamped move.
- Portal.RenderedExactly: leaves out non-negative numbers, whose digits can complete a placeholder in front of them; Substitution.AdjacencyExact covers them for parameters without a `$`.
- Substitution.RenderIsSubstitution: is about given values and sufficient only, since a wrong replacement can produce the right text by coincidence; Substitution.SubstitutionExact and Substitution.AdjacencyExact are exact.
- Portal.RenderPortalSql: a parameter enters after its bytes are decoded; decoding and type inference are not modelled.
- PortalStatements.RenderedStatements: asks for placeholders that are all `$1`, or for values that stay apart and hold no `$` (PortalStatements.StatementCountExact says what happens otherwise); it is about the gateway's own splitter, which knows no comments; it says nothing about how Exasol reads the text.
- Words.ContainsWord: requires a non-empty needle; with an empty one the loop need not end.
- PagedFetch.ParseResultSet: requires that successful pages move the position on, without which the loop need not end (PagedFetch.LoopEnds); JSON decoding is not modelled.
- Batches.ReverseBatchExact: a row is a list of cells; column arrays, schemas and the cursor's column metadata are not modelled.
- Commands.CommandRoundTrip: a name that ends in a semicolon is left to the layout, which may end in semicolons; the statement is one the splitter hands on, and metadata detection, which answers only texts that start with SELECT, is not part of this model.
- SearchPath.QuotedStatement: the word characters of the boundary behind TO are a parameter of which only white space and quotes are known not to be word characters.
- SearchPath.QuotedListRoundTrip: begins at the value behind the cleaning; in a statement a block comment opened in one name can be closed in a later one, as in `"a/*", "b*/"`.
- SearchPath.LiteralRoundTrip: begins at the value behind the cleaning; SearchPath.LiteralStatement is about the statement.
- Cleaning.DeclaredQueryIsCleaned: the DECLARE pattern enters as the introduction it has matched in front of the query, in which no comment can start.
- Removers.RemoversAgree: a carriage return that no line feed follows ends a line comment for cleaning and not for stripping; texts with one are left out.
- Session.Isolated: a FETCH or MOVE whose count never settles is no event, as it is never answered; the DECLARE regular expression and statement classification enter as the `safe` flag and the declared name, SCROLL and HOLD.
- Extended.ExtendedSession.OnExecute: the portal store is a map from names to bindings and the unnamed portal has an empty name; connection and transaction states belong to the protocol library and are not part of this model.
- SelectItems.SplitSelectItems: the parenthesis depth is an unbounded integer.
- Script.SplitsPrintedScript: statements must be trimmed, have no `--/` line among their own, begin with no comment, not end a line with a semicolon before their end (simple) or before their CREATE line (compound), and hold no lone slash after the CREATE line.
- Startup, authentication, TLS, sockets and the Exasol drivers: I/O.
- The regular-expression rewrites and the transpiler: neither dialect has a semantics here to preserve.
- Statement classification tables, metadata detection, type maps, label folding, configuration: branch tables.
- Running the statements of a simple query until the first error: a plain loop over the splitter's result.
