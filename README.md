# Network-IDS core, modelled in Dafny

Network-IDS is a small web application. It classifies the rows of an
uploaded network-flow CSV with a random-forest model and stores each
upload's predictions in a MongoDB collection. Two pages read them back:
- a history page, with one line per stored document;
- a dashboard, with one count per predicted label.

This project models the deterministic core of that application and proves
what it promises.

- `wrappers.dfy` (`Wrappers`): `Option` and `Result`.
- `pystr.dfy` (`PyStr`): the Python string operations the core relies on:
  - `strip()` with Python's whitespace set, and `strip(c)`;
  - `find` and `rfind`;
  - `splitlines()`;
  - `replace` of one character;
  - code-point order of strings;
  - `str(int)`.
- `mongo_uri.dfy` (`MongoUri`): `_sanitize_mongo_uri`. It removes a
  pasted `<...>` placeholder around the whole connection string or around
  the password. It covers the part of `urlsplit`/`urlunsplit` that this
  path can observe.
- `dotenv.dfy` (`DotEnv`): the `.env` loader that runs at start-up, over
  decoded text and an environment map. The inference module runs an
  identical copy of it (ml/predict.py:18-30). A method holds the loop; the
  functions give its meaning.
- `history.dfy` (`History`):
  - writing an upload, either as one document per prediction or as one
    summary document holding a label tally;
  - the history listing: limit, filter and one row per document;
  - the text of a summary line: the most frequent non-`BENIGN` label,
    case-insensitively, or the benign verdict.
- `dashboard.dfy` (`Dashboard`):
  - the aggregation pipeline's meaning, as a fold over the stored
    documents;
  - the post-processing of its groups: drop the missing label, show U+FFFD
    as `-`, sort by count descending then label ascending, and split into
    parallel label and count lists.
- `features.dfy` (`Features`): the table of an uploaded CSV, a class
  updated in place. It trims column names, drops `Label` columns, coerces
  cells to numbers, and replaces infinities and then NaN by zero. When two
  cleaned names coincide, `df[col]` selects both columns and the coercion
  raises; the model stops there and reports the name.
- `resolver.dfy` (`ModelSource`):
  - where labels and model come from: the newest remote model document,
    with local files as the fallback;
  - the process-wide memo of the three cached resolvers, as a class.
- `predict.dfy` (`Predict`): one prediction request. It prepares the
  table, resolves labels and session, checks the feature width before the
  model runs, and maps indices to labels with Python list indexing.

## Model

| member | source | states |
|---|---|---|
| PyStr.Strip | app.py:28-30 | Python `strip()`: never longer than its argument, and neither end of the result is whitespace |
| PyStr.StripIdempotent | ml/predict.py:97 | trimming an already trimmed name changes nothing |
| PyStr.StripChar | app.py:30 | `strip(c)`: neither end of the result is `c` |
| PyStr.StripCharEnclosed | app.py:30 | `strip(c)` removes exactly one enclosing pair of `c` from a value that does not itself end in `c` |
| PyStr.StripWhereKeeps | app.py:29-30 | stripping keeps every character it is not told to remove |
| PyStr.StripWhereFrom | app.py:29-30 | every character a strip keeps was in its argument |
| PyStr.StripWhereTrims | app.py:28-30 | a strip's result is an infix of its argument with only stripped characters before and after it |
| PyStr.TrimmedUnique | app.py:28-30 | such an infix with unstripped ends is unique, so together with `StripWhereTrims` it fixes the result of `strip()` |
| PyStr.IndexOf | app.py:29 | `find`: an occurrence with no earlier occurrence |
| PyStr.LastIndexOf | app.py:52 | `rfind`: an occurrence with no later occurrence |
| PyStr.IndexOfAt | app.py:54 | the first occurrence is the index `find` returns |
| PyStr.LastIndexOfAt | app.py:52 | the last occurrence is the index `rfind` returns |
| PyStr.RemoveChar | app.py:26 | removing NUL leaves no NUL and leaves a NUL-free text unchanged |
| PyStr.RemoveCharMembers | app.py:26 | removing one character keeps every other character and adds none |
| PyStr.RemoveCharAppend | app.py:26 | removing a character distributes over concatenation |
| PyStr.RemoveCharSingle | app.py:26 | on one character: removed when it is the one, kept otherwise |
| PyStr.SplitLines | app.py:27 | `splitlines()`: no line holds a line boundary; the empty text has no lines |
| PyStr.SplitLinesTail | app.py:27 | the lines after the first are the lines of the text after the first boundary |
| PyStr.SplitLinesFrom | app.py:27 | every character of a line occurs in the text |
| PyStr.SplitLinesTerminated | app.py:27 | a line followed by `\n` is cut off as one line |
| PyStr.SplitLinesBreak | app.py:27 | a break-free line followed by any one line boundary (`\r` not followed by `\n`) is cut off as one line |
| PyStr.SplitLinesCrLf | app.py:27 | a break-free line followed by `\r\n` is cut off as one line, the pair counting as one boundary |
| PyStr.SplitLinesLast | app.py:27 | a non-empty text without a boundary is one line |
| PyStr.ReplaceChar | app.py:208 | one-character `replace`: same length, exactly the matching positions changed |
| PyStr.LexLeTotal | app.py:211 | string order is total |
| PyStr.LexLeAntisymmetric | app.py:211 | two strings each no greater than the other are equal |
| PyStr.LexLeTransitive | app.py:211 | string order is transitive |
| PyStr.IntToDecimal | app.py:166-168 | `str(total)`: non-empty, with a leading `-` exactly for negative numbers |
| PyStr.NatToDecimalValue | app.py:166-168 | the digits of a natural number are decimal digits, without a leading zero, whose value is the number |
| PyStr.IntToDecimalValue | app.py:166-168 | `str(n)`: the decimal digits of `n`, after a `-` exactly when `n` is negative, denoting its absolute value |
| MongoUri.LowerAscii | app.py:59 | the scheme `urlunparse` writes back: same length, each ASCII capital replaced by its lower-case letter, every other character kept |
| MongoUri.UnwrapWhole | app.py:42-46 | trims the URI; with no `<...>` wrapper, the trimmed URI is the result; the result has no whitespace at either end |
| MongoUri.UnwrapOnce | app.py:44-46 | one `<...>` wrapper around a trimmed URI is removed, and only one |
| MongoUri.WrappedUriUnwrapped | app.py:42-64 | a URI pasted inside `<...>` sanitises exactly as the URI itself |
| MongoUri.SanitizeMongoUri | app.py:34-64 | an empty URI is returned unchanged |
| MongoUri.CleanedFromInput | app.py:49 | the clean-up before parsing adds no character |
| MongoUri.SchemeEnd | app.py:49 | the scheme ends at a `:` strictly inside the string |
| MongoUri.SplitNetloc | app.py:49-50 | the authority follows `//`, holds no `/`, `?` or `#`, ends where the rest starts with one of them or the input ends, and with the rest rebuilds the input; without `//` there is none |
| MongoUri.SplitAtFirst | app.py:49 | the query and fragment split happens at the first separator, and the parts rebuild the input |
| MongoUri.NetlocFromRest | app.py:50 | the authority's characters come from the text after the scheme |
| MongoUri.NetlocFromInput | app.py:49-50 | every character of the parsed authority occurs in the URI |
| MongoUri.SplitCredentials | app.py:51-54 | split at the last `@`, then at the first `:`: user without `:`, host without `@`, and the three rebuild the authority; none exactly when there is no `@` or no `:` before it |
| MongoUri.PasswordFromInput | app.py:49-55 | the first character of the parsed password occurs in the URI |
| MongoUri.NoPlaceholderKept | app.py:49-64 | when the parsed authority has no bracketed password, the rewrite returns its input |
| MongoUri.AngleFreeHasNoPlaceholder | app.py:49-55 | without a `<` in the URI no parsed password is bracketed |
| MongoUri.RewriteNeedsAngle | app.py:55-59 | without a `<` there is no rewrite |
| MongoUri.NoPlaceholderKeepsTrimmed | app.py:42-64 | when no credential split of the unwrapped URI yields a bracketed password, the result is the trimmed and unwrapped URI, nothing else normalised |
| MongoUri.AngleFreeKeepsTrimmed | app.py:42-64 | in particular when no `<` is left after the outer unwrapping |
| MongoUri.CredentialsOf | app.py:52-54 | the authority split recovers user, password and host whenever they hold no separator |
| MongoUri.UntouchedByTrimming | app.py:44-46 | a URI starting with a letter and holding no whitespace passes the first step unchanged |
| MongoUri.UntouchedByCleaning | app.py:49 | such a URI also passes the parser's clean-up unchanged |
| MongoUri.SchemeOfAuthorityUrl | app.py:49 | the scheme of `scheme:rest` ends at the first `:` |
| MongoUri.PathQueryShape | app.py:49-50 | a rooted path without `?` or `#`, then an optional `?query` without `#`: it ends the authority, holds no fragment, and splits at its first `?` into that path and query |
| MongoUri.SplitOfAuthorityUrl | app.py:49-50 | the parse of `scheme://netloc[/path][?query]` without a fragment: the lower-cased scheme, the authority, the path and the query |
| MongoUri.NetlocOf | app.py:50 | the authority of `//netloc/tail` is `netloc` |
| MongoUri.RewriteOfAuthorityUrl | app.py:55-59 | a bracketed password loses only its two brackets; user, host, path and query are rebuilt unchanged |
| MongoUri.UnsplitOfParts | app.py:59 | `urlunsplit` writes scheme, `//`, authority, a rooted path and `?query` back in order, and no `?` for an empty query |
| MongoUri.AtlasHasNoSpace | app.py:44 | an Atlas-style URI holds no whitespace |
| MongoUri.AtlasNetlocChars | app.py:49-50 | its authority holds no `/`, `?`, `#`, `[` or `]` |
| MongoUri.AtlasSeparators | app.py:52-54 | its user holds no `:`, and its password and host hold no `@` |
| MongoUri.AtlasUntouched | app.py:42-59 | an Atlas-style URI reaches the password rewrite unchanged |
| MongoUri.SanitizeOfUntouched | app.py:42-59 | a URI that trimming and clean-up leave alone goes straight to the password rewrite |
| MongoUri.DbTail | app.py:49-50 | an optional `/db` path is rooted and holds no `?` or `#`, and with an optional query the tail holds no whitespace |
| MongoUri.AtlasSplit | app.py:49-50 | the parse of an Atlas-style URI with optional path and query: its parts as written, scheme lower-cased, no bracket in the authority |
| MongoUri.AtlasSanitized | app.py:51-59 | `scheme://user:<pw>@host[/path][?query]` becomes `scheme://user:pw@host[/path][?query]`, scheme lower-cased |
| MongoUri.PlaceholderPasswordUnwrapped | app.py:34-64 | on `scheme://user:<password>@host[/db][?query]`, as in `/db?retryWrites=true&w=majority`, only the password's brackets go; user, host, database and query are kept |
| DotEnv.Unquote | app.py:30 | the value after trimming and both quote strips starts and ends with no `'` |
| DotEnv.BindingOf | app.py:29-30 | the name of a binding holds no `=` and has no whitespace at its ends |
| DotEnv.ParseLine | app.py:28-30 | a line is a binding exactly when it holds `=` and its trimmed form does not start with `#`; the name holds no `=` and no whitespace at its ends |
| DotEnv.ParseLines | app.py:27-28 | one parse per line |
| DotEnv.ParseLinesAt | app.py:27-28 | the parse of line `i` is the parse of that line |
| DotEnv.ApplyLines | app.py:27-31 | a completed pass keeps every variable that was set before |
| DotEnv.LoadDotEnv | app.py:26-31 | the loop leaves the environment and the completion flag that the loader's meaning gives |
| DotEnv.Bindings | app.py:28 | at most one binding per line |
| DotEnv.LastValue | app.py:30 | the last value bound to a name, present exactly when some binding names it |
| DotEnv.ApplyLinesIsAssign | app.py:27-30 | when no line names the empty variable, the loop completes and performs exactly the file's bindings in order |
| DotEnv.EmptyKeyStops | app.py:30-31 | a line naming the empty variable raises and abandons every later line |
| DotEnv.LastBindingWins | app.py:30 | later lines overwrite earlier ones: each variable ends with its last binding, and the others keep their values |
| DotEnv.AssignSnoc | app.py:30 | one more binding updates one variable |
| DotEnv.ParsedFromLine | app.py:29-30 | names and values are made of the line's characters |
| DotEnv.NoNulAssigned | app.py:26-30 | no assigned name or value holds NUL |
| DotEnv.BindingFromParsed | app.py:26-30 | bindings made from NUL-free parses hold no NUL |
| DotEnv.BindingOfAt | app.py:29-30 | with its first `=` at `i`, the name is the trimmed text before it and the value the unquoted rest |
| DotEnv.ParseLineAt | app.py:28-30 | the name is the trimmed text before the first `=`, the value the unquoted rest |
| DotEnv.UnquotePlain | app.py:30 | a value with no space or quote at its ends is kept as written |
| DotEnv.ParseLineOf | app.py:28-30 | the parse of `k=raw` is `(strip(k), unquote(raw))` |
| DotEnv.ParseWritten | app.py:28-30 | a written `key=value` line reads back as its binding |
| DotEnv.UnquoteQuoted | app.py:30 | a double-quoted value keeps its inner text |
| DotEnv.LineHasNoBreak | app.py:27 | a line made of break-free parts has no break |
| DotEnv.Lines | app.py:27 | one line per binding |
| DotEnv.SplitRendered | app.py:27 | cutting a written file into lines gives back the written lines |
| DotEnv.LinesAt | app.py:27 | line `i` of a written file is binding `i`'s line |
| DotEnv.BindingsOfParsed | app.py:28-30 | lines that all parse as bindings give exactly those bindings, in order |
| DotEnv.RenderNoNul | app.py:26 | a file written from NUL-free bindings holds no NUL |
| DotEnv.LoadOfRendered | app.py:26-31 | round trip: a file written from well-formed bindings loads completely and applies them in order |
| History.Keys | app.py:133 | one key per tally entry, in order |
| History.BumpKeys | app.py:127 | one more occurrence keeps the labels in order and appends the label when it is new |
| History.BumpEntries | app.py:127 | one more occurrence raises that label's entry by one, or adds it with count one, and leaves every other entry alone |
| History.BumpSum | app.py:127 | one more occurrence raises the total by one |
| History.Tally | app.py:127 | `Counter`: keys are the distinct labels in order of first occurrence |
| History.Dedup | app.py:127 | distinct, and holding exactly the labels that occur |
| History.MultisetLast | app.py:127 | the occurrence count of a label grows by one exactly at its own occurrence |
| History.TallyCounts | app.py:127-133 | each entry's count is its label's number of occurrences |
| History.TallySum | app.py:132 | the counts add up to the number of predictions |
| History.PerRowDocs | app.py:120 | one per-prediction document per prediction, in order |
| History.Insert | app.py:117-135 | inserted documents get fresh identifiers and one timestamp, and nothing stored before changes |
| History.StoreResults | app.py:216-221 | mode `per_row` writes one document per prediction with one timestamp, nothing for an empty upload; any other mode writes one summary |
| History.SummaryDocFaithful | app.py:127-134 | the summary holds one entry per distinct label, each with its occurrence count, and a total equal to the number of predictions and to the sum of the counts |
| History.AlertPositions | app.py:163 | exactly the positions of non-benign labels, increasing |
| History.Alerts | app.py:163 | the non-benign entries in tally order |
| History.FirstMax | app.py:165 | `max` by count: a largest count, and the first one |
| History.SummarizeBenign | app.py:163-168 | the benign line is shown exactly when every label upper-cases to `BENIGN` |
| History.SummarizeTop | app.py:163-166 | the alert names the first non-benign label with the largest count among non-benign labels |
| History.SummaryReadBack | app.py:156-172 | an empty upload's summary shows its missing attack field; otherwise the line reports the number of predictions |
| History.BenignKeys | app.py:163-168 | a tally's entries are all benign exactly when all tallied labels are |
| History.TopOfTally | app.py:163-166 | a tally's top alert is a tallied non-benign label that no other non-benign label outnumbers |
| History.UploadVerdictBenign | app.py:163-168 | an upload's summary line is an alert exactly when some prediction is not benign |
| History.UploadVerdictTop | app.py:163-166 | the alert names a predicted non-benign label that no other non-benign label outnumbers |
| History.NormalizeLimit | app.py:142-144 | no limit or a non-positive one gives the default, otherwise the given one; positive whenever the default is |
| History.Matching | app.py:149 | mode `summary` keeps a document exactly when it is a summary, and never grows the list; other modes select everything |
| History.MatchingAppend | app.py:149 | the filter distributes over concatenation |
| History.MatchingSingle | app.py:149 | in summary mode one document is kept exactly when it is a summary |
| History.CursorLimit | app.py:153 | a prefix of the documents: all for limit 0, otherwise at most the limit's absolute value |
| History.LoadHistoryRows | app.py:137-174 | the loop's rows are the history listing's meaning |
| History.HistoryRowsShape | app.py:142-155 | at most `limit` rows, in cursor order, and only summaries in summary mode |
| History.MatchingKeepsOrder | app.py:149-152 | filtering keeps newest-first order |
| History.HistoryNewestFirst | app.py:150-155 | rows come newest first |
| Dashboard.Add | app.py:184-202 | one group gains the value, creating it if needed; every other group is unchanged |
| Dashboard.AddCountsGet | app.py:192-195 | adding a tally adds its entries for a label, and creates a group exactly for its keys |
| Dashboard.AddAllGet | app.py:184-202 | a label's count is the number of its per-prediction documents plus its summary counts; a group exists exactly when a document names the label |
| Dashboard.AggregateMeaning | app.py:184-202 | the pipeline's table equals the two reference counts, and its groups are the labels some document names |
| Dashboard.DocsOf | app.py:204 | the stored documents' fields, in order |
| Dashboard.PerRowCountAppend | app.py:188-189 | per-prediction counts add over concatenation |
| Dashboard.SummarySumAppend | app.py:192-195 | summary sums add over concatenation |
| Dashboard.MentionedAppend | app.py:184-202 | a label is named in a concatenation exactly when one part names it |
| Dashboard.PerRowDocsCount | app.py:117-122 | an upload's per-prediction documents count each label's occurrences and name exactly the predicted labels |
| Dashboard.PerRowDocsSummaries | app.py:188-195 | per-prediction documents contribute nothing to the summary facet |
| Dashboard.CountForBump | app.py:127-133 | one more occurrence adds one to that label's tally sum only |
| Dashboard.TallyCountFor | app.py:127-133 | a summary's entries for a label sum to its number of occurrences |
| Dashboard.AggregateAppend | app.py:184-202 | more documents add their reference counts to the table |
| Dashboard.StoredDocs | app.py:216-221 | storing appends the upload's documents after the existing ones |
| Dashboard.UploadDocsCount | app.py:117-135 | in either mode an upload contributes each label's occurrence count and names exactly its labels |
| Dashboard.StoreThenAggregate | app.py:184-221 | write then read: storing an upload raises each label's count by its occurrences, whichever mode stored it |
| Dashboard.Display | app.py:208 | the shown label has no U+FFFD, the same length, and every other character kept |
| Dashboard.Displayed | app.py:204-208 | at most one row per group, and no shown label holds U+FFFD |
| Dashboard.DisplayedMembers | app.py:204-208 | the rows are exactly the labelled groups with their labels shown |
| Dashboard.LabelSetMembers | app.py:204-207 | the labels of the groups are exactly those some group carries |
| Dashboard.DisplayedLength | app.py:204-208 | displaying never merges: one row per labelled group, whatever the shown labels |
| Dashboard.DistinctLabelsCount | app.py:184-202 | groups with distinct keys carry as many distinct labels as labelled groups |
| Dashboard.DisplayedCount | app.py:184-208 | the groups of the pipeline, one per key, display as exactly one row per label of its table |
| Dashboard.DisplayedOfEnumeration | app.py:201-208 | a row is shown exactly when it is the displayed form and count of some label of the table |
| Dashboard.DashboardRows | app.py:184-208 | over the stored documents, a row is shown exactly when it is the displayed form of a label some document names with that label's reference count |
| Dashboard.DashboardRowCount | app.py:184-208 | over the stored documents, there are exactly as many rows as labels the pipeline's table holds |
| Dashboard.BeforeTotal | app.py:211 | any two rows are ordered one way or the other |
| Dashboard.BeforeAntisymmetric | app.py:211 | rows with equal sort keys are equal |
| Dashboard.BeforeTransitive | app.py:211 | the row order is transitive |
| Dashboard.InsertRow | app.py:211 | insertion keeps the rows sorted and adds exactly the new row |
| Dashboard.InsertFront | app.py:211 | a row that goes before the first keeps the rows sorted |
| Dashboard.InsertBehind | app.py:211 | a row that goes before every other keeps the rows sorted |
| Dashboard.SortRows | app.py:210-211 | sorted by count descending then label ascending, and a permutation of its input |
| Dashboard.SortedUnique | app.py:210-211 | two sorted permutations of the same rows are equal, so the result is that of the stable sort whatever the input order |
| Dashboard.LoadDashboardCounts | app.py:176-214 | the rows are sorted, are a permutation of the displayed labelled groups, and the label and count lists mirror them |
| Dashboard.CollidingRows | app.py:201-208 | two raw labels that show alike give two rows before sorting |
| Dashboard.DisplayCollision | app.py:201-211 | an instance of `DisplayedLength`: two raw labels that show alike give two rows, sorted by count, and are not merged again |
| Features.Coerce | ml/predict.py:103-104 | `errors='coerce'`: an unparseable cell becomes NaN, every other cell is kept |
| Features.ZeroInfinity | ml/predict.py:106 | either infinity becomes the number 0, every other cell is kept |
| Features.FillZero | ml/predict.py:107 | NaN becomes the number 0, every other cell is kept |
| Features.Normalize | ml/predict.py:103-107 | a number is kept; NaN, either infinity and an unparseable cell all end as the number 0 |
| Features.MapColumn | ml/predict.py:104 | a cell step keeps the name and the length and acts cell by cell |
| Features.MapCells | ml/predict.py:103-107 | a cell step keeps the number of columns and acts column by column |
| Features.StripNames | ml/predict.py:97 | every name trimmed, cells unchanged |
| Features.DropLabel | ml/predict.py:100-101 | no column left is named `Label` |
| Features.DropLabelAppend | ml/predict.py:100-101 | dropping distributes over concatenation, so the other columns keep their order |
| Features.DropLabelSingle | ml/predict.py:100-101 | one column is dropped exactly when named `Label` |
| Features.DropLabelMembers | ml/predict.py:100-101 | a column survives exactly when its name is not `Label` |
| Features.DropLabelNoop | ml/predict.py:100 | without a `Label` column nothing is dropped |
| Features.PreparedShape | ml/predict.py:97-107 | after preparation every cell is a number, every name is trimmed and none is `Label` |
| Features.MapCellsNoop | ml/predict.py:103-107 | a step that leaves every cell alone leaves the table alone |
| Features.StripNamesNoop | ml/predict.py:97 | trimmed names stay as they are |
| Features.MapCellsCompose | ml/predict.py:103-107 | the three in-place passes amount to one normalisation of every cell |
| Features.PrepareIdempotent | ml/predict.py:97-107 | preparing a prepared table changes nothing |
| Features.Frame.constructor | ml/predict.py:94 | a table read from the CSV, every column one cell per row |
| Features.CleanedHeights | ml/predict.py:97-101 | trimming names and dropping `Label` columns keeps every column's height |
| Features.Frame.CleanColumnNames | ml/predict.py:97-101 | the names trimmed, then every `Label` column dropped |
| Features.FirstShared | ml/predict.py:103-104 | the first column whose name another column also has, or the width exactly when all names are distinct |
| Features.CoercedUntilShared | ml/predict.py:103-104 | the columns before the first shared name coerced, that one and the rest as they were |
| Features.SameNamesShare | ml/predict.py:103-104 | whether a name is shared depends on the names only, not on the cells |
| Features.StoppedAt | ml/predict.py:103-104 | a loop stopped at the first shared name has coerced exactly the columns before it |
| Features.RanThrough | ml/predict.py:103-104 | a loop that ran through every column met no shared name and coerced every column |
| Features.Frame.CoerceNumeric | ml/predict.py:103-104 | with distinct names every column is coerced; otherwise `df[col]` selects several columns and `to_numeric` raises at the first shared name, whose earlier columns are coerced and the rest untouched, and that name is reported |
| Features.Frame.ReplaceInfinities | ml/predict.py:106 | infinities replaced in place |
| Features.Frame.FillMissing | ml/predict.py:107 | NaN replaced in place |
| Features.Frame.PrepareInPlace | ml/predict.py:97-107 | when the cleaned names are distinct, the in-place steps give the preparation of the table read, all cells numbers; otherwise they stop at the first shared cleaned name as the coercion loop does |
| Features.DropLabelKeepsCollision | ml/predict.py:100-104 | two equal names other than `Label` still collide after the drop |
| Features.TrimmedNamesCollide | ml/predict.py:97-104 | two headers that trim to the same name other than `Label` make the table unpreparable |
| Features.LeadingSpaceTrimmed | ml/predict.py:97 | ` A` and `A` both trim to `A` |
| Features.SpacedDuplicate | ml/predict.py:97-104 | headers `A` and ` A`, distinct in the file, collide once trimmed and the coercion raises |
| Features.PreparedPreparable | ml/predict.py:97-107 | a prepared table can be prepared again |
| ModelSource.RemoteEnabled | ml/predict.py:33 | remote sourcing is on when the flag is unset or trims to `1` |
| ModelSource.EnvFileDisablesRemote | ml/predict.py:17-33 | a `.env` file setting the flag to `0` switches remote sourcing off |
| ModelSource.Newest | ml/predict.py:54 | a document with the latest timestamp, the first such |
| ModelSource.FetchRemote | ml/predict.py:42-61 | nothing when disabled, unreachable or empty; otherwise the fields of a latest document |
| ModelSource.ResolveClasses | ml/predict.py:64-75 | remote labels when non-empty, else the local file's, else the not-found error, which happens exactly when both are missing |
| ModelSource.ResolveSession | ml/predict.py:78-91 | no runtime is an error; else remote bytes when non-empty, else the local file, else the not-found error |
| ModelSource.SourcesIndependent | ml/predict.py:63-89 | remote labels and a local model can be chosen together |
| ModelSource.ModelResolver.constructor | ml/predict.py:41-77 | empty caches and no query made |
| ModelSource.ModelResolver.Fetch | ml/predict.py:41-61 | the collection is queried at the first call only; its result, failures included, is returned ever after |
| ModelSource.ModelResolver.Classes | ml/predict.py:63-75 | the first label list obtained is returned ever after; a failure is not remembered |
| ModelSource.ModelResolver.GetSession | ml/predict.py:77-91 | the first session built is returned ever after; with no runtime the call fails before any query |
| Predict.CheckWidth | ml/predict.py:112-118 | fails with both widths exactly when a width is declared and differs from the table's |
| Predict.PyIndex | ml/predict.py:124 | list indexing: negative indices count from the end; anything else outside fails |
| Predict.MapLabels | ml/predict.py:124 | one label per prediction in order, each the entry at its index; otherwise it fails at the first index outside the list |
| Predict.Row | ml/predict.py:120 | a row has one number per column |
| Predict.Predictions | ml/predict.py:120-122 | one model index per row, in row order |
| Predict.WidthMismatchBeforeModel | ml/predict.py:115-121 | a width mismatch fails with both widths, whatever the model would say |
| Predict.OutcomeLabels | ml/predict.py:120-124 | success yields one label per row, each the entry at the model's index for that row |
| Predict.IndexPastEndFails | ml/predict.py:124 | an index past the end fails rather than being clamped |
| Predict.PredictAttack | ml/predict.py:93-124 | a shared cleaned column name fails with that name before any label or model is resolved, the table left as the coercion loop left it, the memo untouched; otherwise the table is prepared in place and, for any memo state, the outcome and the new memo follow `lru_cache`: remembered labels and session are reused, missing ones are resolved from the remembered fetch or one new fetch, labels and session are remembered only when obtained, and a remembered fetch is never repeated |
| Predict.ConsecutiveRequests | ml/predict.py:41-124 | after one successful request, the next uses the same label list and session, and the database has been queried once in all |

## Left out

- PyStr.Strip: its own contract states the length bound and the two ends
  only; the exact result (the infix left once the whitespace runs at both
  ends are gone) is stated by `PyStr.StripWhereTrims` and
  `PyStr.TrimmedUnique`, which keep that characterisation out of every proof
  that uses `Strip`.
- PyStr.StripChar: likewise; the same two lemmas apply with `Is(c)` as the
  stripped set.
- PyStr.RemoveChar: its own contract states absence and the no-op case;
  `PyStr.RemoveCharAppend` and `PyStr.RemoveCharSingle` fix its result.
- PyStr.SplitLines: its own contract states break-free lines and the empty
  case; `PyStr.SplitLinesBreak`, `PyStr.SplitLinesCrLf` and
  `PyStr.SplitLinesLast` fix its result line by line.
- History.Matching: its own contract states membership only; order and
  multiplicity (a filter) are stated by `History.MatchingAppend` and
  `History.MatchingSingle`.
- PyStr.IntToDecimal: its own contract states the sign; the digits' value is
  stated by `PyStr.IntToDecimalValue`.
- Predict.PredictAttack: a model whose declared input has fewer than two
  dimensions makes `shape[1]` (ml/predict.py:113) raise `IndexError`; the
  model takes the declared width as an optional number and does not model
  that failure.
- Features.Frame.constructor: `read_csv` renames exact duplicate headers
  (`A`, `A.1`); the model starts from the headers as read. Duplicates that
  appear only after trimming are modelled.

- The Flask routes, templates, upload saving and error pages.
- The MongoDB client, index creation and the real `insert`, `find` and
  `aggregate` calls. The store is a sequence of documents, and the
  pipeline's output groups are an input the model relates to the stored
  documents.
- Reading the `.env` file and decoding it from UTF-16 or UTF-8. The loader
  starts from decoded text.
- DotEnv.LoadDotEnv: it takes the process environment as a map. Setting the
  empty name is taken to raise, whatever the exception and the platform.
- Timestamps from the clock. They are parameters.
- The history page's conversion of a `limit` argument with `int(...)`. The
  limit arrives as an optional integer.
- History.CursorLimit: ties between equal timestamps are left to the
  database. The model expects the documents newest first.
- The summary's `source_file` field. It is stored and never shown.
- MongoUri.SanitizeMongoUri: `urlsplit` is modelled as Python 3.12 (and
  3.11.4 onwards) implements it: leading C0 control characters and spaces
  are stripped and an unbalanced bracket raises `ValueError`; older releases
  differ there. It is modelled only as far as this code path can see it. Left out: IPv6 address validation, NFKC checks of
  the authority, port parsing and `;params`.
- Dashboard.SortRows: `list.sort` works in place but is modelled as a
  function. `SortedUnique` shows that stability cannot change its result.
- Features: pandas CSV parsing, float32 conversion and the real numeric
  parser. Cells are abstract, and numbers are exact reals.
- ModelSource.Newest: among model documents with the same latest
  timestamp, the database's choice is not modelled. The first one is taken.
- ModelSource.ResolveClasses: the local label file's JSON parsing is out.
  The file is assumed to hold a list of strings.
- Predict.Predictions: ONNX session construction and `run` are out. The
  model is an opaque classifier applied to each row, and the width a
  session declares is an input.
- ModelSource.ModelResolver: thread safety of the caches is out. Calls are
  modelled one after another.
- The offline training script and the browser chart code.
