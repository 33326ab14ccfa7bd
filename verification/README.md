# nsDashboard, verified

Models of the parts of nsDashboard (a Redash fork) where state, arithmetic and text handling interact, with
proofs of what they promise over all inputs and over whole runs. `dafny verify dfyconfig.toml` checks everything.

* **Password codec** (`CriptografiaSenha`, with `Numerals`, `Divisibility`, `Fermat`, `Rsa`, `DoubleDivision`,
  `CodecSpec`, `CodecRoundTrip`, `CodecText`). Characters become numerals, the digit string is cut into blocks by a
  loop whose index can move backwards, and every block goes through the raw RSA pair of section 5.1 of RFC 8017. The
  loops are proved against a block-by-block specification; the specification is proved to round-trip for exactly the
  strings whose characters are all `Safe`, to raise for exactly those that hold an `Unencodable` character, and to
  emit the cubes of the blocks modulo 436141. Modular reduction divides through floating-point numbers: the quotient
  is a parameter `div` of which only the rounding contract of IEEE 754 is assumed (`Faithful`), and the remainder is
  proved exact. A Python string is a sequence of code points; `math.floor` of the integer power is the integer itself.
* **Scheduler** (`Scheduler`, `OutdatedQueries`, `OrderedDict`). Instants are UTC microseconds since 0001-01-01, a
  Monday, bounded by the years 1 to 9999; leaving them is the `OverflowError` of `datetime`. The day fraction of an
  interval is modelled as the exact number of seconds it stands for.
* **Tenant cache** (`TenantCache`, `TenantCacheRuns`). The table of stored results behind the tenant endpoint, as a
  state machine whose steps are requests. The clock and the query runner's data are part of a request; which of
  several equally new rows the database returns first is left open. Requests run one after the other.
* **Query text** (`QueryHash`, `TenantQuery`). The normalised text behind the query hash, the annotation put before
  a query, and the tenant placeholder. Lower-casing and MD5 are one unknown function of the normalised text.
* **Result shaping** (`PgSchema`, `DgraphFlatten`, `FetchColumns`, `ElasticResults`, `ElasticTables`,
  `KibanaPaging`). Dictionaries that the source mutates are fields of classes; a row that is passed on by reference
  is its position in the rows.
* **Notifications** (`Alerts`, `FailureReports`). Both as classes proved against step functions, with laws over all
  runs of the steps. The state an alert evaluates to and all clock readings are inputs of a check.

Where the code and its comments disagree the code is followed: the comments at `redash/models/__init__.py:389-390`
ask for more than 23 hours with a time of day and more than six days with a weekday; `NeverDueAtOwnRunExactly` gives
the exact bound, and with shorter intervals a query can be due the moment it has run. The weekday of a weekly schedule
is met exactly when the previous run was not before the requested time of day (`WeeklyPlan`).

## Model

| member | source | states |
|---|---|---|
| CriptografiaSenha.ElevarMod | redash/utils/criptografia_senha.py:25-36 | the loop computes base^expoente mod nro although every step divides through a double |
| CriptografiaSenha.Codificar | redash/utils/criptografia_senha.py:38-132 | the index-moving loop yields exactly the block-by-block encoding, or raises exactly where a block is empty; the branches for blocks at or above the modulus and the literal 00 token are unreachable; it terminates |
| CriptografiaSenha.Recuar | redash/utils/criptografia_senha.py:63-84 | before a zero one or two digits are handed to the next block, or encoding raises |
| CriptografiaSenha.QtdBlocos | redash/utils/criptografia_senha.py:11-18 | counts the dashes of the text |
| CriptografiaSenha.DashesLeft | redash/utils/criptografia_senha.py:143-163 | the dashes left after i are one more than those after the next dash, or none when no dash remains: each turn of the decoder loop consumes exactly one counted piece |
| CriptografiaSenha.DecifrarBlocos | redash/utils/criptografia_senha.py:143-163 | the piece loop yields exactly the digits the dash-terminated pieces decode to, or raises at the first bad piece |
| CriptografiaSenha.Agrupar | redash/utils/criptografia_senha.py:165-181 | the grouping loop turns every four digits into a character, drops left-over digits and raises below code 1000 |
| CriptografiaSenha.Descodificar | redash/utils/criptografia_senha.py:134-181 | both loops together compute the specified decoding |
| DoubleDivision.ModReal | redash/utils/criptografia_senha.py:20-23 | the remainder taken through a rounded quotient is the exact integer remainder |
| DoubleDivision.FloorOfRoundedQuotient | redash/utils/criptografia_senha.py:22 | under any IEEE 754 rounding the floor of the quotient is the integer quotient |
| DoubleDivision.ExactDivisionIsFaithful | redash/utils/criptografia_senha.py:22 | the rounding contract can be met: exact division meets it |
| Fermat.FermatLittle | redash/utils/criptografia_senha.py:6-9 | Fermat's little theorem for the primes of the key, all bases included |
| Rsa.KeyIsPrime | redash/utils/criptografia_senha.py:6-7 | both constants of the key are prime |
| Rsa.RsaInverse | redash/utils/criptografia_senha.py:6-9 | for any two primes and matching exponents decryption undoes encryption for every residue, multiples of the primes included |
| Rsa.DecryptInvertsEncryptExactly | redash/utils/criptografia_senha.py:56-57 | with the codec's constants a value is recovered exactly when it is below the modulus |
| Numerals.ShowOfValue | redash/utils/criptografia_senha.py:53-59 | printing what was read restores a numeral without superfluous zeros and shortens every other one |
| Numerals.ValueOfShow | redash/utils/criptografia_senha.py:150-156 | reading what was printed restores the number |
| CodecRoundTrip.BlockIsSmall | redash/utils/criptografia_senha.py:50-130 | no block exceeds 499, so every block is below the modulus |
| CodecRoundTrip.ReprintIsLossless | redash/utils/criptografia_senha.py:48-130 | splitting loses no digit exactly when no block starts with a superfluous zero; otherwise digits vanish |
| CodecRoundTrip.CleanDigitsSplit | redash/utils/criptografia_senha.py:48-130 | without a bad position every block is non-empty and canonical |
| CodecRoundTrip.BadDigitsDoNotSplit | redash/utils/criptografia_senha.py:63-74 | every bad position, wherever it stands, spoils a block |
| CodecRoundTrip.EncodeRaisesExactly | redash/utils/criptografia_senha.py:65-66 | encoding raises exactly when some character's numeral has a digit from 5 to 9 before two zeros |
| CodecRoundTrip.DecodedDigits | redash/utils/criptografia_senha.py:143-163 | decoding an encoding gives every block's digits printed from its value |
| CodecRoundTrip.EncodingIsAcceptable | redash/utils/criptografia_senha.py:150-153 | every text the encoder emits is one the decoder's loops handle exactly |
| CodecRoundTrip.RoundTripExactly | redash/utils/criptografia_senha.py:38-181 | decoding undoes encoding for exactly the strings whose every character is safe |
| CodecRoundTrip.CodificarDescodificar | redash/utils/criptografia_senha.py:38-181 | running the encoder's loops and then the decoder's gives the string back exactly when every character is safe |
| CodecRoundTrip.Latin1RoundTrips | redash/utils/criptografia_senha.py:38-181 | every string of code points 1 to 255 survives the round trip |
| CodecRoundTrip.FailuresExist | redash/utils/criptografia_senha.py:63-74 | concrete strings that do not survive |
| CodecText.EncryptIsCube | redash/utils/criptografia_senha.py:8-8 | encryption is cubing modulo 436141 |
| CodecText.DecryptIsCubeRootExactly | redash/utils/criptografia_senha.py:9-9 | decryption finds exactly the one cube root below 436141 |
| CodecText.EncodingIsCubes | redash/utils/criptografia_senha.py:38-132 | whatever is encoded, the text lists the cubes modulo 436141 of consecutive non-empty blocks of the digits |
| CodecText.SafeTextIsCubes | redash/utils/criptografia_senha.py:48-132 | for safe characters, the exact text: cubes of blocks of two or three digits, fewer before a zero |
| CodecText.LetterA | redash/utils/criptografia_senha.py:38-181 | "a" becomes 422747-343- and comes back |
| CodecText.FirstPiece | redash/utils/criptografia_senha.py:150-163 | in any text, the literal 00 stays and every other piece below the modulus becomes its cube root |
| CodecText.EmptyPieceRaises | redash/utils/criptografia_senha.py:146-151 | a piece without digits raises |
| CodecText.TextAfterLastDashIsIgnored | redash/utils/criptografia_senha.py:143-163 | text after the last dash is ignored |
| CodecText.FirstGroup | redash/utils/criptografia_senha.py:165-181 | four digits become the character of their value less 1000, and a smaller value raises |
| CodecRoundTrip.GroupOfCharacter | redash/utils/criptografia_senha.py:39-46 | the digits of character j are the numeral of its code plus 1000, at position 4j |
| Scheduler.DailyPlan | redash/models/__init__.py:394-423 | every k days: the plan is the one instant in (P + (k-1) days, P + k days] with the requested time and P's seconds |
| Scheduler.WeeklyPlan | redash/models/__init__.py:401-423 | every k weeks: the plan's window, and the requested weekday of the k-th next week exactly if P was not before the requested time |
| Scheduler.DueExactly | redash/models/__init__.py:424-429 | being due is one comparison with plan plus backoff; a backoff beyond the calendar means never |
| Scheduler.DueIsMonotone | redash/models/__init__.py:424-429 | once due always due; failures only delay |
| Scheduler.PlanIsLater | redash/models/__init__.py:391-423 | a plan never precedes the run it follows, and with a time of day lies strictly after it |
| Scheduler.NotDueAtOwnRun | redash/models/__init__.py:385-429 | no query of a valid schedule is due at its own last run, whatever its failures |
| Scheduler.NeverDueAtOwnRunExactly | redash/models/__init__.py:386-423 | with or without a weekday, the exact shortest interval with which a timed schedule is never due at its own run |
| Scheduler.HoursAndDaysDoNotSuffice | redash/models/__init__.py:389-390 | the lower bounds of the two comments are too low: more than 23 hours, or more than six days with a weekday, can be due at the own run |
| Scheduler.PlainDueExactly | redash/models/__init__.py:391-429 | without a time of day a query is due exactly when its interval, and 2^failures minutes after failures, have passed |
| Scheduler.TimedPlanExactly | redash/models/__init__.py:394-423 | for every interval, with a time of day and perhaps a weekday: the plan is the one instant with the requested time on the day reached |
| Scheduler.TimedPlanRaisesExactly | redash/models/__init__.py:395-423 | which of the three errors a timed plan raises, exactly |
| Scheduler.PlansOfNewYear | redash/models/__init__.py:394-423 | three plans of Wednesday 1 January 2020 in numbers |
| OrderedDict.CollectKeepsLast | redash/models/__init__.py:654-657 | assigning in order leaves each key once, with its last value |
| OutdatedQueries.KeysDistinguish | redash/models/__init__.py:654 | the text key distinguishes exactly the pairs of hash and data source |
| OutdatedQueries.Sweep | redash/models/__init__.py:613-657 | exactly one due, unexpired query per hash and data source, the one with the highest id; raises exactly when one plan does |
| OutdatedQueries.CollectedIsSweepResult | redash/models/__init__.py:627-657 | the dictionary the loop fills is that selection |
| OutdatedQueries.NeverRunIsNeverTaken | redash/models/__init__.py:639-653 | a query with a valid schedule and without any recorded run is never selected |
| OutdatedQueries.StaysOutdated | redash/models/__init__.py:627-655 | a selected query stays due until it runs or expires |
| OutdatedQueries.PlainSelectionExactly | redash/models/__init__.py:627-653 | with a plain interval: selected exactly when unexpired and the interval has passed since the recorded execution, else the latest result, else now |
| OutdatedQueries.SelectionExactly | redash/models/__init__.py:627-653 | the same with any schedule, against its plan |
| OutdatedQueries.SkippedQuery | redash/models/__init__.py:628-637 | a query without an interval and an expired one are skipped without raising |
| TenantCache.QueryResults.GetByQueryHashAndTenant | redash/models/__init__.py:381-382 | a newest row of the hash and tenant, or none if there is none |
| TenantCache.QueryResults.StoreResult | redash/models/__init__.py:357-375 | appends the row and changes nothing else |
| TenantCache.QueryResults.Get | redash/handlers/query_results_tenant.py:131-146 | a request is a hit on a newest row that is not due, a miss that stores a fresh row, or an error that changes nothing |
| TenantCacheRuns.ReplyIsOwn | redash/handlers/query_results_tenant.py:131-146 | every served row has the requested tenant and the query's hash and is stored |
| TenantCacheRuns.RunsOnlyWhenDue | redash/handlers/query_results_tenant.py:132-139 | a query with a stored row runs again only if it has a schedule and the newest row is due |
| TenantCacheRuns.FreshAfterReply | redash/handlers/query_results_tenant.py:131-146 | after an answer the newest row is not due at that instant |
| TenantCacheRuns.RepeatIsHit | redash/handlers/query_results_tenant.py:131-146 | the same request at the same instant changes nothing |
| TenantCacheRuns.RunsOnceWithoutPlan | redash/handlers/query_results_tenant.py:132 | over any run a query without a schedule is executed at most once per tenant, and exactly once if it was asked for and not stored |
| TenantCacheRuns.PlanBetween | redash/handlers/query_results_tenant.py:131-146 | between any two executions of a scheduled query lies a planned run |
| TenantCacheRuns.IntervalSpacing | redash/handlers/query_results_tenant.py:131-146 | for a schedule without a time of day, two executions are more than the interval apart |
| TenantCacheRuns.DailySpacing | redash/handlers/query_results_tenant.py:131-146 | the requested time of day strikes between any two executions |
| TenantCacheRuns.LoadBound | redash/handlers/query_results_tenant.py:131-146 | for a schedule without a time of day, n executions of a query for a tenant take at least n - 1 intervals |
| TenantCacheRuns.MissServesTheRun | redash/handlers/query_results_tenant.py:143-145 | a request that runs the query stores and serves the runner's data, the query's text and the store's time |
| TenantCacheRuns.HitServesNewest | redash/handlers/query_results_tenant.py:131-146 | any other answer is a stored row as new as any |
| TenantCacheRuns.AnswersHaveASource | redash/handlers/query_results_tenant.py:131-146 | over any run an answer was there at the start or carries the data, text and time of this or an earlier request for the same query and tenant |
| TenantCacheRuns.PlainRequestRunsExactly | redash/handlers/query_results_tenant.py:132-139 | with a plain interval a request runs the query exactly when the interval and the delay have passed since the newest row |
| TenantCacheRuns.RequestRunsExactly | redash/handlers/query_results_tenant.py:132-139 | the same with any schedule; an error of the plan is the answer |
| TenantCacheRuns.LateRequestIsServedFresh | redash/handlers/query_results_tenant.py:131-146 | over any run a request that comes late enough stores and serves a run of its own |
| QueryHash.AnnotationIsAdditive | redash/query_runner/__init__.py:75-81 | the normalised text of an annotated query is that of the header followed by that of the query |
| QueryHash.AnnotationIsInvisibleExactly | redash/utils/__init__.py:51-61 | annotating keeps the normalised text of every query exactly when the header normalises to nothing |
| QueryHash.HarmlessMetadataKeepsHash | redash/query_runner/__init__.py:75-81 | metadata without comment ends and line breaks never changes a query's hash |
| QueryHash.LeakingMetadataChangesIdentity | redash/query_runner/__init__.py:79-80 | the metadata value */ ends the comment early and changes the identity of every query |
| QueryHash.LeftmostCommentIsRemoved | redash/utils/__init__.py:24-24 | the leftmost closed comment without a line break is removed whole, and what follows it is treated alike |
| QueryHash.NoCommentNothingRemoved | redash/utils/__init__.py:24-24 | text without such comments is kept |
| QueryHash.SqueezeIsSolid | redash/utils/__init__.py:60-60 | splitting and joining drops exactly Python's 29 whitespace characters |
| QueryHash.HashesAgreeExactly | redash/utils/__init__.py:51-61 | two queries have the same hash under every digest exactly when their normalised texts agree |
| QueryHash.AnnotationInWords | redash/query_runner/__init__.py:75-81 | the annotation is a comment before the query; runners that do not annotate leave it alone |
| QueryHash.EntriesInWords | redash/query_runner/__init__.py:79-79 | metadata is printed as "key: value", separated by commas |
| TenantQuery.ReplaceKeepsPieces | redash/query_runner/multi_tenant_util.py:51-61 | the text around the replaced placeholders is kept in order |
| TenantQuery.PiecesAreClean | redash/query_runner/multi_tenant_util.py:56 | the kept text holds no placeholder |
| TenantQuery.ReplacedLength | redash/query_runner/multi_tenant_util.py:56 | the length changes by the same amount per replaced placeholder |
| TenantQuery.PlaceholderIsGoneExactly | redash/query_runner/multi_tenant_util.py:51-61 | no query keeps a placeholder exactly when the tenant's text cannot be laid over the placeholder |
| TenantQuery.NumbersSeparate | redash/query_runner/multi_tenant_util.py:56 | tenant numbers meet that condition |
| TenantQuery.PreparedOnce | redash/query_runner/multi_tenant_util.py:51-61 | preparing a prepared query again, for any user, changes nothing |
| TenantQuery.TenantIsFilledIn | redash/query_runner/multi_tenant_util.py:51-61 | the prepared query is the query with every C_TENANT exchanged for the tenant, and nothing else |
| TenantQuery.NumberLeavesNoPlaceholder | redash/query_runner/multi_tenant_util.py:51-61 | with a tenant number no C_TENANT is left |
| TenantQuery.NothingToFillIn | redash/query_runner/multi_tenant_util.py:51-61 | without a user, or without the placeholder, the query is left alone |
| TenantQuery.TenantsAreSeparated | redash/query_runner/multi_tenant_util.py:51-61 | different tenants of the same length get different queries where the query mentions the tenant |
| TenantQuery.OnePlaceholder | redash/query_runner/multi_tenant_util.py:56-56 | one placeholder between plain texts |
| PgSchema.BuildSchema | redash/query_runner/pg.py:77-104 | files every row's column under its table's key, in row order, after what was there |
| PgSchema.KeysMergeExactly | redash/query_runner/pg.py:92-99 | two tables share a key exactly when both are qualified and share a full name |
| PgSchema.FullNamesCoincideExactly | redash/query_runner/pg.py:70-74 | full names of different tables coincide exactly in one pattern of quotes |
| PgSchema.KeysNeverMerge | redash/query_runner/pg.py:77-104 | without double quotes different tables never share a key |
| PgSchema.SchemaListsEveryTable | redash/query_runner/pg.py:77-104 | each table's entry lists exactly its columns in row order |
| PgSchema.QuotedNamesMerge | redash/query_runner/pg.py:70-74 | two quoted tables that do share a name |
| PgSchema.FullNameInWords | redash/query_runner/pg.py:70-74 | a dot in the table's name puts the name in quotes |
| PgSchema.KeyInWords | redash/query_runner/pg.py:92-99 | a public table goes by its bare name unless that is some table's full name |
| PgSchema.MainUsers | redash/query_runner/pg.py:78-85 | the example of the source's comment |
| DgraphFlatten.ReduceItem | redash/query_runner/dgraph.py:14-29 | the recursion writes exactly the leaves, each under its dotted path, into the shared dictionary |
| DgraphFlatten.PathsDiffer | redash/query_runner/dgraph.py:14-29 | different leaves have different paths |
| DgraphFlatten.LeavesExactly | redash/query_runner/dgraph.py:14-29 | the leaves written are exactly those reached by indices into lists and keys into dictionaries |
| DgraphFlatten.PathIsRecoverable | redash/query_runner/dgraph.py:19-25 | the path of a leaf can be read back from its key |
| DgraphFlatten.KeysCoincideExactly | redash/query_runner/dgraph.py:19-25 | two different paths share a key exactly when, where they part, one has a component a and the other a.r, and the first goes on to spell r and then the rest of the second |
| DgraphFlatten.LeafKeysCoincideExactly | redash/query_runner/dgraph.py:14-29 | two leaves of a tree share a key exactly when their paths part at a dictionary with keys a and a.r and the path through a spells out the difference |
| DgraphFlatten.NothingOverwrittenExactly | redash/query_runner/dgraph.py:14-29 | there is one entry per leaf exactly when in no dictionary of the tree the entries under a key a and a key a.r lead to leaves that spell the same |
| DgraphFlatten.SiblingsWithoutContinuationKeepAll | redash/query_runner/dgraph.py:14-29 | keys may hold dots: as long as no key continues a sibling by a dot, every leaf keeps an entry of its own |
| DgraphFlatten.FlatteningIsFaithful | redash/query_runner/dgraph.py:14-29 | without dots in dictionary keys every leaf keeps its own, readable key |
| DgraphFlatten.DottedKeysCollide | redash/query_runner/dgraph.py:22-29 | with a dot in a key a leaf can be lost |
| FetchColumns.Fetch | redash/query_runner/__init__.py:94-110 | the loop names the columns one after the other and keeps their number, order and types |
| FetchColumns.DistinctExactly | redash/query_runner/__init__.py:94-110 | a set of column names comes out distinct, in every order and with every repetition, exactly when no name is another one followed by a positive numeral |
| FetchColumns.RepetitionsAreNumbered | redash/query_runner/__init__.py:94-110 | from such names, a first occurrence keeps its name and the k-th repetition in the list gets k appended |
| FetchColumns.PlainNamesStayDistinct | redash/query_runner/__init__.py:94-110 | if no name ends in a digit the names come out distinct |
| FetchColumns.ZipKeepsEveryCell | redash/query_runner/pg.py:210-213 | with distinct names a row's dictionary loses no cell |
| FetchColumns.DigitNamesCollide | redash/query_runner/__init__.py:99-105 | a1, a, a gives the name a1 twice |
| ElasticResults.Collect | redash/query_runner/elasticsearch.py:208-275 | collecting an aggregation keeps the table consistent, only adds columns and rows, loses no cell, touches no other row and stores only requested fields, also when it raises |
| ElasticResults.CollectItems | redash/query_runner/elasticsearch.py:241-273 | without a row every list member gets a row of its own |
| ElasticResults.ResultTable.CollectAggregations | redash/query_runner/elasticsearch.py:208-275 | the mutating recursion computes that collection |
| ElasticResults.ResultTable.StoreValue | redash/query_runner/elasticsearch.py:198-206 | stores one cell and its column, or raises |
| ElasticResults.ResultTable.ParseResults | redash/query_runner/elasticsearch.py:277-340 | parses a response into the accumulators as specified, or raises |
| ElasticResults.ParsingStaysTabular | redash/query_runner/elasticsearch.py:176-340 | over any number of responses, failing ones included, column names are distinct and every cell has its column; earlier columns and rows stay |
| ElasticResults.EachBucketHasItsRow | redash/query_runner/elasticsearch.py:241-273 | each outer bucket's key, as a string where it has one, ends up in its own row |
| ElasticResults.LastNestedBucketWins | redash/query_runner/elasticsearch.py:241-273 | nested buckets share one row, in which only the last key remains, as a string where it has one |
| ElasticResults.HitRowIsExact | redash/query_runner/elasticsearch.py:317-336 | a hit's row holds exactly the requested entries, lists of one unwrapped |
| ElasticTables.BucketsBecomeRows | redash/query_runner/elasticsearch.py:208-306 | of a parsed response: each bucket of an aggregation has a row, in order, with its key under the aggregation's name and its count; for flat buckets the row is given exactly |
| ElasticTables.OneRowABucket | redash/query_runner/elasticsearch.py:208-306 | a response of one such aggregation gives exactly one row a bucket |
| ElasticTables.MetricIsStored | redash/query_runner/elasticsearch.py:211-224 | a truthy value or count returned below an entry is stored under that entry's key, in the row in use or a new one, with a column of kind long |
| ElasticTables.BelowBucket | redash/query_runner/elasticsearch.py:226-239 | a bucket of a key and one number shows the number under the key |
| ElasticTables.TopLevelMetricIsDropped | redash/query_runner/elasticsearch.py:297-306 | a value directly under an aggregation's name opens no row |
| ElasticTables.ByStatus | redash/query_runner/elasticsearch.py:208-306 | one bucket in full: its row, and its columns with their kinds |
| ElasticTables.HitsBecomeRows | redash/query_runner/elasticsearch.py:317-336 | each hit becomes a row, in order, with exactly the wanted entries and lists of one unwrapped |
| ElasticTables.HitColumnsAreMapped | redash/query_runner/elasticsearch.py:179-191 | columns opened for hits have the mapped kind, else string |
| ElasticTables.RequestedFieldsHaveColumns | redash/query_runner/elasticsearch.py:291-295 | every requested field has a column |
| ElasticTables.OnlyRequestedFieldsAreShown | redash/query_runner/elasticsearch.py:198-200 | when fields are requested nothing else is shown |
| ElasticTables.ScalarBucketRaisesExactly | redash/query_runner/elasticsearch.py:253-273 | a list member that is no object raises, except a string without the two keys |
| KibanaPaging.Pages | redash/query_runner/elasticsearch.py:419-434 | where the loop ends it asks for one window per turn until the limit is first reached, and for a positive size and limit these tile the limit |
| KibanaPaging.LoopEndsExactly | redash/query_runner/elasticsearch.py:432-434 | some turn reaches the limit exactly for a positive size or a size not below the limit; otherwise the loop never ends |
| KibanaPaging.ZeroSizeNeverEnds | redash/query_runner/elasticsearch.py:432-434 | a size of zero with a limit of one hundred never ends |
| KibanaPaging.TilesCoverOnce | redash/query_runner/elasticsearch.py:419-434 | every offset below the limit is requested exactly once |
| Alerts.CheckAlertsForQuery | redash/tasks/alerts.py:35-65 | each alert's state and time are updated and its notification decided as specified, each alert by itself |
| Alerts.LastTimeIsKept | redash/tasks/alerts.py:44-50 | the remembered time is never older than the last update |
| Alerts.NotificationsAreSpaced | redash/tasks/alerts.py:21-31 | two notifications without a state change between them are more than a rearm period apart |
| Alerts.AtMostOnceWithoutRearm | redash/tasks/alerts.py:21-31 | without rearm a stretch of one state notifies at most once |
| Alerts.NotificationRate | redash/tasks/alerts.py:21-65 | n notifications in one stretch take at least n - 1 rearm periods |
| Alerts.MutingIsInvisible | redash/tasks/alerts.py:61-63 | muting changes no state, no time and no other notification |
| Alerts.ChangeNotifiesExactly | redash/tasks/alerts.py:44-65 | a change of state is recorded with its time and notifies unless muted or a first good evaluation |
| Alerts.RenotifiesExactly | redash/tasks/alerts.py:21-31 | without a change: notifies exactly when triggered, unmuted and more than the rearm seconds after the last recorded time |
| FailureReports.FailureBoard.TrackFailure | redash/tasks/failure_report.py:90-98 | counts the failure and lists it if below the limit |
| FailureReports.FailureBoard.NotifyOfFailure | redash/tasks/failure_report.py:67-87 | puts the failure in front of its owner's list exactly if wanted and below the limit |
| FailureReports.FailureBoard.SendFailureReport | redash/tasks/failure_report.py:30-64 | reports the pending failures and deletes the list |
| FailureReports.FailureBoard.ResetFailures | redash/models/__init__.py:837-840 | a new query text sets the counter to zero |
| FailureReports.RowShowsNewest | redash/tasks/failure_report.py:35-50 | each row shows the newest failure of its query and message and their number |
| FailureReports.RowsPartition | redash/tasks/failure_report.py:36-50 | one row per query and message, none missing |
| FailureReports.ReportConserves | redash/tasks/failure_report.py:30-64 | the counts of a report add up to the pending failures |
| FailureReports.FailuresAreConserved | redash/tasks/failure_report.py:30-98 | over any run, pushed failures are the reported and the pending ones |
| FailureReports.ReportingStopsAtLimit | redash/tasks/failure_report.py:67-98 | between resets the first limit - 1 failures of a query are listed and no more |
| FailureReports.CounterIsFailuresSinceReset | redash/models/__init__.py:837-840 | over any run a query's counter counts its failures since its last reset |
| FailureReports.PendingHasASource | redash/tasks/failure_report.py:67-98 | over any run a pending failure was there before or tells of a tracked one of that user, with its text and time |
| FailureReports.ListedFirst | redash/tasks/failure_report.py:75-87 | a listed failure comes first, with the number counted so far |

## Left out

- Descodificar: texts with characters other than ASCII digits and dashes (which `int()` partly accepts, such as signs or blanks), and pieces of 2^33 or more, where the double quotient is no longer exact; RFC 8017 admits only pieces below the modulus.
- DecifrarBlocos: the same two restrictions.
- ModReal: quotients at or above 2^33 and divisors above 2^20, for the same reason; the codec's only divisor is below 2^19.
- ElevarMod: moduli above 2^20 and bases of 2^33 or more, for the same reason.
- NextIteration: parsing of the time of day and the weekday name; the rounding of the day fraction when an interval is so large that doubles cannot hold its microseconds.
- Sweep: the database query that lists the scheduled queries by id; its result is the input.
- Get: permissions, serialisation of the reply and concurrent requests to the same tenant.
- Alert.evaluate and next_state: the comparison of a result with a threshold; the evaluated state is an input of a check.
- CheckAlertsForQuery: delivery to the destinations.
- SendFailureReport: rendering and sending the mail; a report is one atomic step.
- GenQueryHash: lower-casing and MD5, one parameter.
- ParseResults: the mapping request, HTTP and the debug log; the raw response is already split into error, aggregations, hits or none of them, and a hit into its entries.
- Elasticsearch not-a-number values as dictionary keys.
- The other query runners, the web client, authentication, migrations and the command line.
