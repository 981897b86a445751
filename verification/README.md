# ObserveX: a verified model of its access control, its query front ends and its schedulers

ObserveX is a multi-tenant observability platform. Agents send metrics, logs and traces; users query
them through a gateway that narrows every query to what an administrator has granted. This project
models the parts of it in which a mistake is easy to make and hard to see, and proves what they are
for.

* **The access-control pipeline, end to end.** The control-plane tables and every handler that
  changes them form a step machine in which a PUT of a user's access is several separate reads and a
  transaction, with anything in between (`Tables`, `Rbac`); what each handler does to the rows, and that a
  PUT that may be granted is, is in `Effects`. The gateway folds a user's grant rows and
  derives a pair of allowed clusters and namespaces (`Access`), escapes the names into a regular
  expression (`Regex`, `Alternation`), and appends matchers in place to every selector of the parsed
  query (`PromQL`). A compositional evaluator over sets of series gives queries a meaning
  (`PromQLMeaning`), so the claim is semantic: the rewritten query on all data is the original query on
  the permitted data, where "permitted" is said of the stored grants (`Gateway`). The administrator's
  editor shows, and saves, exactly the access that is then enforced for users without the admin role
  (`Editor`); an administrator has all of the tenant's clusters whatever is saved. LogQL and TraceQL are
  rewritten as text; what they mean is what a reader that knows about string literals and comments, and a
  parser in which `&&` binds tighter than `||`, make of the output (`Quoting`, `Braces`, `LogQL`,
  `TraceQL`). Both rewrites accept texts that are no query by themselves and that the rewrite itself
  completes, so the theorems range over every accepted text (`LogQLAccess`, `TraceQLAccess`,
  `TraceQLCut`).
* **Schema evolution.** The migration runner is a protocol for any number of concurrent, failing and
  crashing runners (`Migrate`); one migration that rewrites grants is shown to lose no access
  (`GrantIndexMigration`).
* **Query-language front ends and data reshaping.** The log search language (`LogSearch`), the metric
  builder and its reader (`MetricBuilder`, `LabelText`), series names and their parser
  (`SeriesNames`), the multi-target table join (`TableJoin`) and dashboard variables (`Variables`,
  `VariablesMeaning`).
* **Stateful loops over whole runs.** The synthetic-check scheduler (`Prober`), the search for a free
  signup slug (`Signup`) and the datasource status cache (`StatusCache`).

`Wrappers` and `Text` hold the shared result types and text helpers. Code that changes state in the
source is a class or a method with loops here, and is tied by its `ensures` to a specification
function or relation; the theorems are about those. Clocks, generated ids, the order in which a map or
a query returns its rows, regular-expression engines, `toLowerCase` and rounding are parameters, so
the results hold for every choice of them. `dafny verify dfyconfig.toml` checks the whole project.

## Where the code does something other than its description

* `frontend/src/lib/logQuery.ts:11` describes `!= "healthy"` as an exclusion. The tokenizer cuts it at
  the space, so the phrase is searched for instead: `LogSearch.SpacedExclusionSearches`. It excludes if
  and only if nothing stands between operator and phrase, or the phrase is empty:
  `LogSearch.ExclusionNeedsNoSpace`.
* `frontend/src/lib/logQuery.ts:16` says that free text is matched against the message. Line 103
  searches the label values as well, and so does `LogSearch.MatchesLogQuery`.
* `frontend/src/lib/promqlQuery.ts` reads back what the builder prints unless the aggregation is `p95`,
  whose `0.95, ` makes the selector unreadable, a label value holds a double quote or a `}`, or the
  selector of an ungrouped call reads as a shorter call with a grouping, as `a) by (b` makes it:
  `MetricBuilder.BuilderRoundTrips` is an if and only if.
* `frontend/src/dashboard/usePanelData.ts:117-120` reads the labels back out of a printed series name. It
  gives back the metric and all labels if and only if the keys are in lower case, every value is a run of
  characters other than quote and backslash and of backslash pairs, none of which pairs with a line break,
  and, where there is a metric name, no value holds a line break: `SeriesNames.NameRoundTrips`.
* `backend/internal/tenancy/logql.go:9-13` and `16-21` call the injection safe because the selector
  comes first. For a well-formed query it is right if and only if the text that the code keeps between
  the braces ends outside string literals and comments: `LogQL.ScopingIsRightIff`. A `}` in a label value
  turns the injected text into part of that value (`LogQL.HiddenBraceBreaksScoping`), one in a comment
  drops it (`LogQL.BraceInCommentDropsScope`), and a comment at the end of the selector hides its closing
  brace (`LogQL.CommentMovesEnd`).
* The LogQL rewrite also accepts, and completes, texts that are no query by themselves. Of every accepted
  text, whatever the grants, the output is the scoped selector if and only if the kept text ends outside
  literals and comments, or no output reads at all: `LogQLAccess.ScopedWhateverTheGrants`. Otherwise the
  output is the query with the injected text left out (`LogQLAccess.CommentTakesInjection`) or in the
  value of one literal (`LogQLAccess.RawLiteralTakesInjection`); `LogQLAccess.CommentedOut` is a text that
  does not read and whose output reads unscoped.
* `backend/internal/tenancy/traceql.go:9-16` covers the single-spanset case. The code also accepts text
  that is no spanset filter by itself and that the added parentheses complete: the rewrite of
  `{ a) || (b }` accepts whatever `a` accepts (`TraceQLAccess.DisjunctionEscapes`), and a first `}` inside
  a literal can make that literal swallow the conditions (`TraceQLAccess.CutLiteralEscapes`).
  `TraceQLCut.ConfinedWhateverTheGrants` decides confinement for every accepted text: it holds whatever
  the grants if and only if no output reads, or the first braces cut no literal and the text in them closes
  off no disjunct. Spansets after the first stay as they are: `TraceQLAccess.ScopeReachesWholeQuery`, and
  for every accepted text `TraceQLCut.WholeQueryWhateverTheGrants`.
* LogQL and TraceQL patterns are pasted between double quotes without escaping for the quotes. The
  literal denotes exactly the intended names if and only if no name holds a regular-expression operator
  (a dot is one), a double quote or a line feed: `Quoting.LiteralIsExactIff`.
* With no cluster selected the namespace restriction is a union over clusters, as
  `backend/cmd/query-gateway/main.go:120-128` says. It never rejects a granted pair, and it lets
  nothing else through if and only if the grants are uniform: `Access.NoSelectionExactness`.
* In the access editor, adding a namespace to a cluster with full access narrows the cluster to that
  namespace: `Editor.EditMeaning`.
* Dashboard variables are substituted one after another. Unless a variable's name continues the name of a
  reference that a word character can come to follow, that is one simultaneous substitution if and only if
  no bare reference to one of them has come to be followed by a word character by the time its variable is
  set: `Variables.LoopIsSimultaneous`, and for two references in a row `Variables.AdjacentReferences`. A
  longer name can take the reference over: `Variables.AccidentalReference`.
* `frontend/src/dashboard/usePanelData.ts:253-258` upgrades an exact match on a wildcard. With a blank on
  either side of the operator it stays exact: `VariablesMeaning.BlanksPreventUpgrade`.

## Model

| member | source | states |
|---|---|---|
| `Alternation.RegexpQuoteMeta` | backend/internal/tenancy/promql.go:82-91 | The loop over a builder computes the per-character escaping that `Alternation.QuoteParses` reads back as the literal name. |
| `Alternation.EscapeAll` | backend/internal/tenancy/promql.go:73-79 | Filling the slice by index escapes every name in place, in order. |
| `Alternation.RegexAlternation` | backend/internal/tenancy/promql.go:57-59 | The joined pattern is the one whose language is determined below. |
| `Alternation.QuoteParses` | backend/internal/tenancy/promql.go:82-91 | An escaped name parses as the sequence of its own characters, whatever alternative follows it. |
| `Alternation.AlternationIsExact` | backend/internal/tenancy/promql.go:51-59 | For every list, the pattern compiles and, fully anchored, accepts exactly the listed names: no character of a name can widen it. |
| `Alternation.AlternationIgnoresOrder` | backend/cmd/query-gateway/main.go:142-149 | Lists with the same names, in any order and with repetitions, accept the same labels, so the map's iteration order is harmless. |
| `Text.ClassesAre` | frontend/src/lib/promqlQuery.ts:60-98 | The characters of `\w` and `\s`, and of what Go trims, by number, and what lower-casing does to each. |
| `Regex.AnythingMatches` | frontend/src/dashboard/usePanelData.ts:242-244 | The "All" value `.*` accepts every string. |
| `Regex.OperatorsMean` | backend/internal/tenancy/promql.go:84-88 | What the operators that the escaping guards against mean: `*`, `+` and `?` after a character, a group, an alternative, and the dot. |
| `Regex.EscapedOperators` | backend/internal/tenancy/promql.go:84-88 | Exactly why those fourteen characters are escaped: after a backslash each stands for itself, and alone none but the dot accepts itself. |
| `PromQL.MustRegexMatcher` | backend/internal/tenancy/promql.go:61-71 | The matcher is built and its pattern always compiles: the panic is unreachable for every list of names. |
| `PromQL.Inspect` | backend/internal/tenancy/promql.go:41-46 | The in-place traversal turns the parsed tree into the tree in which every selector, at any depth, carries the extra matchers and nothing else changed. |
| `PromQL.ScopePromQL` | backend/internal/tenancy/promql.go:24-49 | Fails exactly on an empty cluster list or a parse error, leaving the tree alone; otherwise the tree is scoped by the cluster matcher and, when there are namespaces, the namespace matcher. |
| `PromQLMeaning.InjectedCharacterises` | backend/internal/tenancy/promql.go:34-39 | The injected matchers hold of a series exactly when its cluster is listed and, if there are namespaces, its namespace is. |
| `PromQLMeaning.InjectedOnLabels` | backend/internal/tenancy/promql.go:34-39 | Label by label: a series without the cluster or the namespace label passes just when the empty name is listed. |
| `PromQLMeaning.ScopedQueryMeansPermittedData` | backend/internal/tenancy/promql.go:11-23 | For every expression tree, data set, time and choice of operators: the rewritten query on all series evaluates to the original on only the permitted series. |
| `PromQLMeaning.ScopesIntersect` | backend/internal/tenancy/promql.go:15-19 | Two scopes compose as the intersection of what they permit; scoping twice is scoping once. |
| `PromQLMeaning.ScopeIgnoresOrder` | backend/cmd/query-gateway/main.go:141-153 | Scopes with the same names in any order give every query the same value. |
| `Access.LoadAccess` | backend/cmd/query-gateway/main.go:99-114 | The row-by-row fold gives, for each cluster mentioned, whether some row grants it in full and which namespaces its rows name. |
| `Access.PartialHasNamespace` | backend/cmd/query-gateway/main.go:106-112 | A cluster granted but not in full always has a namespace, so its list is never read as "no restriction". |
| `Access.ScopeFor` | backend/cmd/query-gateway/main.go:129-154 | For any iteration order: the selected cluster's own list, or every granted cluster once with the union of the partial lists, dropped when some grant is full; refused exactly for a cluster without a grant. |
| `Access.SelectedClusterIsExact` | backend/cmd/query-gateway/main.go:117-139 | With a cluster selected, access is refused exactly when no row mentions it, and otherwise a pair gets through exactly when it is in that cluster and some row covers it. |
| `Access.NoSelectionAdmits` | backend/cmd/query-gateway/main.go:141-153 | With none selected, a pair gets through exactly when its cluster is granted and some grant is full or its namespace is granted somewhere; a granted pair is never rejected. |
| `Access.NoSelectionExactness` | backend/cmd/query-gateway/main.go:120-128 | That filter is exact if and only if all grants are full, or none is and all granted clusters carry the same namespaces. |
| `Access.NoSelectionExactForNames` | backend/cmd/query-gateway/main.go:141-153 | The same for names, of which there is always one not granted. |
| `Gateway.NamesAgreeWithIds` | backend/cmd/query-gateway/main.go:79-93 | In sound tables, matching by cluster and namespace name is matching by id: names are unique in a tenant and grants stay in it. |
| `Gateway.HandleQuery` | backend/cmd/query-gateway/main.go:170-202 | Forbidden exactly without a usable grant, a bad request exactly without a parsable query, and otherwise the user's query scoped by an enforced scope of the loaded rows. |
| `Gateway.SelectedQueryIsExact` | backend/cmd/query-gateway/main.go:117-139 | From the stored grants to the value: with a cluster selected, the query sent upstream evaluates to the user's query over exactly the series that the user's grants cover. |
| `Gateway.UnselectedPairs` | backend/cmd/query-gateway/main.go:120-153 | With none selected, every pair granted in the tables gets through, and nothing else does if and only if the grants are uniform. |
| `Gateway.UniformUnselectedQueryIsExact` | backend/cmd/query-gateway/main.go:141-153 | Under uniform grants the unselected query evaluates to the user's query over exactly the granted series. |
| `Tables.Database.InsertGrant` | backend/cmd/rbac-service/main.go:338-347 | One INSERT succeeds exactly when its foreign keys exist and the row is new, and then appends it; otherwise nothing changes. |
| `Tables.Database.ReplaceAccess` | backend/cmd/rbac-service/main.go:324-353 | The delete-and-insert transaction commits exactly when the requested rows are distinct and everything they name exists, and then leaves others' rows and the requested ones; otherwise it is rolled back in full. |
| `Tables.Database.ValidateGrants` | backend/cmd/rbac-service/main.go:288-322 | The loop accepts exactly the requests whose clusters belong to the tenant and whose namespaces belong to their cluster. |
| `Tables.Database.Report` | backend/cmd/tenant-service/main.go:291-325 | Unknown clusters change nothing; otherwise the upserts of the reported names are applied together. |
| `Tables.UniqueIndexesMeanDistinct` | backend/migrations/0003_access_grants_null_uniqueness.sql:23-29 | The two partial indexes together forbid exactly the repeated rows, NULL counting as equal to NULL. |
| `Tables.SignUpKeeps` | backend/cmd/auth-service/main.go:166-193 | A signup keeps keys, foreign keys, uniqueness and tenant isolation, and re-points no existing row. |
| `Tables.CreateClusterKeeps` | backend/cmd/tenant-service/main.go:141-149 | Creating a cluster keeps the schema and tenant isolation, and re-points no existing row. |
| `Tables.DeleteClusterKeeps` | backend/cmd/tenant-service/main.go:178-193 | Deleting a cluster, with the cascade to its namespaces and from both to the grants, keeps the schema and isolation. |
| `Tables.UpsertAllKeeps` | backend/cmd/tenant-service/main.go:313-323 | A report of any list of names, repeated or known ones among them, keeps the schema and isolation and leaves the clusters alone. |
| `Tables.ReportIsComplete` | backend/cmd/tenant-service/main.go:313-323 | After a report every reported name is a namespace of the cluster and no earlier namespace is lost or changed. |
| `Tables.CreateUserKeeps` | backend/cmd/rbac-service/main.go:121-129 | Creating a user keeps the schema and isolation. |
| `Tables.DeleteUserKeeps` | backend/cmd/rbac-service/main.go:152-165 | Deleting a user, with the cascade to the grants, keeps the schema and isolation. |
| `Tables.ReplaceGrantsKeeps` | backend/cmd/rbac-service/main.go:332-353 | A replacement keeps the schema, and isolation when every requested grant that can be inserted is linked. |
| `Effects.DeleteUserEffect` | backend/cmd/rbac-service/main.go:152-165 | In every sound state: deleting a user takes the caller's tenant's user of that id and that user's grants, and no other row of any table. |
| `Effects.DeleteClusterEffect` | backend/cmd/tenant-service/main.go:178-193 | Deleting a cluster takes the caller's tenant's cluster of that id, its namespaces and the grants on either, and no other row. |
| `Effects.CreateClusterEffect` | backend/cmd/tenant-service/main.go:141-149 | A new cluster belongs to the caller's tenant under the name asked for; it is refused exactly without a name, without the tenant, or when the tenant has one of that name; nothing else changes. |
| `Effects.CreateUserEffect` | backend/cmd/rbac-service/main.go:121-129 | A new user belongs to the caller's tenant with the address and role asked for; refused exactly without an address, without the tenant, or when the tenant has that address; nothing else changes. |
| `Effects.SignUpEffect` | backend/cmd/auth-service/main.go:166-193 | A signup adds a tenant and its one administrator, and nothing else. |
| `Effects.ReportEffect` | backend/cmd/tenant-service/main.go:291-325 | A report keeps every namespace, gives an existing cluster exactly one namespace of each reported name and adds no other; for an unknown cluster nothing changes. |
| `Effects.OtherChecksWait` | backend/cmd/rbac-service/main.go:288-322 | The checks of a PUT come in one order: one made out of turn changes nothing. |
| `Effects.RefusedPutEnds` | backend/cmd/rbac-service/main.go:268-322 | A check refuses exactly another tenant's user, another tenant's cluster, or a namespace that is not in the cluster named with it; the PUT is then over with the tables as they were, and otherwise goes on to its next check. |
| `Effects.PutEndsOnce` | backend/cmd/rbac-service/main.go:324-356 | A PUT commits only after all its checks, is over once it commits or fails, and does neither twice. |
| `Effects.OwnedPutCommits` | backend/cmd/rbac-service/main.go:254-356 | With any steps of other requests between its checks: a PUT whose user, clusters and namespaces are its tenant's whenever it looks passes all checks, and when they still are at the commit the user has exactly the requested grants. |
| `Rbac.ValidatedRequestIsLinked` | backend/cmd/rbac-service/main.go:288-322 | A request whose checks have passed, at whatever earlier moments, can only insert grants inside one tenant and one cluster: ids are never reused or re-pointed. |
| `Rbac.StepKeepsInv` | backend/cmd/rbac-service/main.go:254-356 | Every step of every handler keeps the schema, isolation, and what the checks made so far still guarantee. |
| `Rbac.EveryRunIsIsolated` | backend/cmd/rbac-service/main.go:288-290 | In every state any interleaving of all handlers reaches, each grant links a user and a cluster of one tenant and a namespace of that cluster, and no grant is repeated. |
| `Rbac.CommitIsAllOrNothing` | backend/cmd/rbac-service/main.go:324-353 | A commit leaves the user's grants exactly as requested or the tables unchanged, and touches nobody else's. |
| `Rbac.GrantsComeFromPuts` | backend/cmd/rbac-service/main.go:254-356 | A new grant comes only from a commit that asked for it, in the tenant that owns both the user and the cluster. |
| `Editor.Load` | frontend/src/app/admin/users/AccessEditor.tsx:53-62 | The load loop gives each cluster its full flag or its set of namespaces, and a valid state, for rows in any order. |
| `Editor.Save` | frontend/src/app/admin/users/AccessEditor.tsx:132-139 | The flattening loop lists each granted cluster or namespace of the state exactly once. |
| `Editor.EveryRunIsValid` | frontend/src/app/admin/users/AccessEditor.tsx:93-126 | Every sequence of edits keeps each entry either full with no namespaces or partial with at least one. |
| `Editor.EditsGoOn` | frontend/src/app/admin/users/AccessEditor.tsx:93-126 | A run of the editor is one edit after another, from the state it loaded. |
| `Editor.EditMeaning` | frontend/src/app/admin/users/AccessEditor.tsx:93-126 | What each edit does to every pair shown as granted, on its own cluster and on all others. |
| `Editor.SaveThenLoad` | frontend/src/app/admin/users/AccessEditor.tsx:53-139 | Reloading the saved rows, in whatever order they return, gives the same state back. |
| `Editor.SavedListIsDistinct` | frontend/src/app/admin/users/AccessEditor.tsx:132-139 | A saved list never breaks the unique indexes: the replacement fails only if something it names is gone. |
| `Editor.EditorAgreesWithGateway` | backend/cmd/query-gateway/main.go:99-114 | For stored rows mixing full and partial grants in any order, the editor shows as granted exactly what some row covers, which is what the gateway's fold grants. |
| `Editor.SavedStateIsEnforced` | frontend/src/app/admin/users/AccessEditor.tsx:128-145 | In every reachable state of the handlers, once the PUT of an edited state commits, the tables are sound and the gateway gives a session of the user a namespace of its tenant exactly when it is an administrator's, whatever was saved, or the editor shows the namespace as granted. |
| `Migrate.StepKeepsInv` | backend/internal/db/db.go:64-93 | Each step of any runner keeps the history a prefix of the files; it grows only by the next file. |
| `Migrate.BeforeIsLexicographic` | backend/internal/db/db.go:62 | The order of the files: a proper beginning comes first, and otherwise the name with the smaller character where the two first differ. |
| `Migrate.EveryRunAppliesAPrefix` | backend/internal/db/db.go:31-35 | Over every interleaving of any number of runners, failing or crashing anywhere, the committed migrations are a prefix of the sorted files, each once and in order; a success means all of them. |
| `Migrate.LaterRunsChangeNothing` | backend/internal/db/db.go:31-35 | Once all are applied, no continuation by any number of runners changes the database. |
| `Migrate.Store.Migrate` | backend/internal/db/db.go:64-94 | One runner alone succeeds exactly when no pending file fails, and otherwise stops before the first that does, with those before it applied; the loop ends where the steps of the protocol do. |
| `Migrate.RestartSucceeds` | backend/internal/db/db.go:65-94 | In every reachable state in which all files are applied, a service that starts looks each up and succeeds, with the database as it was. |
| `Migrate.LoneRunnerSucceeds` | backend/internal/db/db.go:64-94 | From every reachable state in which nobody else holds a key, a runner that is looking files up succeeds by its own steps, with all files applied. |
| `Migrate.OnlyLostRacesFail` | backend/internal/db/db.go:64-93 | Without a fault a runner fails only when it records a file that another one has committed since it was looked up. |
| `GrantIndexMigration.MigrationIsSafe` | backend/migrations/0003_access_grants_null_uniqueness.sql:15-29 | After the DELETE both indexes hold, exactly the same grants remain, and of equal rows the one with the least id. |
| `GrantIndexMigration.OldConstraintMissesFullGrants` | backend/migrations/0003_access_grants_null_uniqueness.sql:1-14 | The old constraint was the second index alone, so the DELETE removes nothing but full-cluster grants. |
| `Quoting.PatternSurvivesQuoting` | backend/internal/tenancy/logql.go:32-35 | The pasted literal reads back as the same text as the pattern of the names if and only if no name holds an operator, a double quote or a line feed. |
| `Quoting.LiteralIsExactIff` | backend/internal/tenancy/logql.go:32-35 | For every list of names, the pasted literal reads as a pattern that accepts exactly the names if and only if no name holds an operator, a double quote or a line feed: no other text that survives the quoting denotes them. |
| `LogQL.AcceptedIff` | backend/internal/tenancy/logql.go:22-29 | A query is accepted if and only if there is a cluster and the text starts, after blanks, with braces around a block without `}`; both refusals carry their own message. |
| `LogQL.AcceptedText` | backend/internal/tenancy/logql.go:31-43 | What becomes of an accepted text: the blanks in front go, the block is trimmed, the matchers are pasted behind it, the rest stays. |
| `LogQL.ScopedSelectorReads` | backend/internal/tenancy/logql.go:22-43 | For every well-formed query, comments included, in which the text kept between the braces ends outside literals and comments, and safe names: the output reads as the original matchers followed by the injected ones, and the tail is unchanged. |
| `LogQL.ScopedSelectorPermits` | backend/internal/tenancy/logql.go:16-21 | Read as matches on a stream's labels, that output selects exactly the streams that the original selects and whose cluster and namespace are listed. |
| `LogQL.HiddenBraceBreaksScoping` | backend/internal/tenancy/logql.go:14 | With the first `}` inside a label value, and any safe names, the output, if it reads at all, has the injected text in the value of one of the query's own matchers, and is not the scoped query. |
| `LogQL.RawLiteralSwallows` | backend/internal/tenancy/logql.go:14-42 | Such a query, with what it and its output read as, whatever the grants. |
| `LogQL.BraceInCommentDropsScope` | backend/internal/tenancy/logql.go:14-42 | With the first `}` inside a comment, the output reads exactly as the query does: nothing is injected. |
| `LogQL.CommentSwallows` | backend/internal/tenancy/logql.go:14-42 | Such a query, with what it and its output read as, whatever the grants. |
| `LogQL.CommentMovesEnd` | backend/internal/tenancy/logql.go:31-42 | With a comment at the end of the selector, the closing brace is commented out: the output's selector, if there is one, ends in what was the tail. |
| `LogQL.ScopingIsRightIff` | backend/internal/tenancy/logql.go:9-43 | For every well-formed query and safe names, the query is accepted if and only if it starts with braces, and the rewrite is right if and only if the query starts with its braces and the text kept between them ends outside literals and comments. |
| `LogQLAccess.KeptSelectorReads` | backend/internal/tenancy/logql.go:22-43 | For every accepted text, well formed or not, whose kept part ends outside literals and comments, and safe names: the output reads just when the kept text does, and then as its matchers followed by the injected ones, with the same tail. |
| `LogQLAccess.CommentTakesInjection` | backend/internal/tenancy/logql.go:31-42 | With a kept text that ends in a comment, the output reads exactly as the same text without the injection and the brace, whatever the grants, and its selector, if there is one, ends in what was the tail. |
| `LogQLAccess.RawLiteralTakesInjection` | backend/internal/tenancy/logql.go:31-42 | With a kept text that ends inside a raw literal, the output reads just when the query does, with the same tail and the same matchers but for the value of that literal, where the injected text stands in place of the space before the brace. |
| `LogQLAccess.OpenStringIsUnreadable` | backend/internal/tenancy/logql.go:31-42 | With a kept text that ends inside a double-quoted literal, no output for names without comma, backquote and hash reads. |
| `LogQLAccess.AcceptedIsScopedIff` | backend/internal/tenancy/logql.go:9-43 | For every accepted text and safe names, an output that reads is the kept matchers followed by the injected ones, with the same tail, if and only if the kept text ends outside literals and comments. |
| `LogQLAccess.ScopedWhateverTheGrants` | backend/internal/tenancy/logql.go:9-43 | For every accepted text: whatever the grants, an output that reads is the scoped selector, if and only if the kept text ends outside literals and comments or the text is one whose output does not read. |
| `LogQLAccess.CommentCompletesQuery` | backend/internal/tenancy/logql.go:14-42 | For any two selector bodies that read, with a comma, a comment, a line feed and a brace between them: the text does not read, and its output reads as the matchers of both with nothing injected, whatever the grants. |
| `LogQLAccess.CommentedOut` | backend/internal/tenancy/logql.go:14-42 | One such text, with what its output reads as. |
| `TraceQL.AcceptedIff` | backend/internal/tenancy/traceql.go:19-26 | A query is accepted if and only if there is a cluster and the text starts, after blanks, with braces around a block without `}`; both refusals carry their own message. |
| `TraceQL.AcceptedText` | backend/internal/tenancy/traceql.go:28-38 | What becomes of an accepted text: the blanks in front go, the trimmed block is put in parentheses, the conditions are pasted behind it, the rest stays. |
| `TraceQLAccess.ScopedSpansetReads` | backend/internal/tenancy/traceql.go:19-38 | For every query the code accepts whose first braces cut no literal, well formed or not: the output reads just when the existing text in parentheses does, the tail is unchanged, and it accepts what a disjunct closed off by that text accepts, or what the last one accepts AND the conditions let through. |
| `TraceQLAccess.WhenConfined` | backend/internal/tenancy/traceql.go:33-37 | What such an output reads as is confined to the granted clusters and namespaces just when each disjunct closed off demands the conditions itself; always, when no disjunction of the existing text is outside its parentheses and the added ones. |
| `TraceQLAccess.DisjunctionEscapes` | backend/internal/tenancy/traceql.go:33-37 | Existing text that closes the parenthesis, writes a disjunction and opens it again, between any two well-nested filters: the output accepts whatever the first accepts, and is confined just when that one demands the conditions. |
| `TraceQLAccess.EscapingQuery` | backend/internal/tenancy/traceql.go:33-37 | One such query: its output reads and is not confined, whatever the grants. |
| `TraceQLAccess.ScopedSpansetMeans` | backend/internal/tenancy/traceql.go:19-38 | For every well-formed filter without `}`, also one built from disjunctions, the output means the original AND the cluster condition AND, when there is one, the namespace condition; the tail is unchanged. |
| `TraceQLAccess.ScopedSpansetPermits` | backend/internal/tenancy/traceql.go:29-32 | Read as matches on resource attributes, that output accepts exactly the spans that the original accepts and whose cluster and namespace are listed. |
| `TraceQLAccess.OutputReadsIffNoHiddenBrace` | backend/internal/tenancy/traceql.go:17-37 | For every well-formed filter, the output reads if and only if no `}` hides in one of its literals. |
| `TraceQLAccess.CutLiteralEscapes` | backend/internal/tenancy/traceql.go:17-37 | One query whose first brace cuts a literal that swallows the conditions: its output reads and is not confined, whatever the grants. |
| `TraceQLAccess.WholeQueryConfined` | backend/internal/tenancy/traceql.go:37 | The whole output is confined just when its first spanset is and every further spanset of the tail demands the conditions itself. |
| `TraceQLAccess.ScopeReachesWholeQuery` | backend/internal/tenancy/traceql.go:9-16 | When the first spanset is confined, the whole output is, whatever the grants, if and only if no further spanset opens outside literals. |
| `TraceQLAccess.SecondSpansetEscapes` | backend/internal/tenancy/traceql.go:37 | A disjunction of two spansets, whose second one is not confined, whatever the grants. |
| `TraceQLCut.CutReadsAlike` | backend/internal/tenancy/traceql.go:23-37 | When the first brace of an accepted text cuts a literal, whether the output reads does not depend on the grants: one that reads under some reads, with the same tail, under any single plain name. |
| `TraceQLCut.CutIsNotConfined` | backend/internal/tenancy/traceql.go:23-37 | For every accepted text whose first brace cuts a literal, an output that reads is not confined to a cluster whose name is longer than the text. |
| `TraceQLCut.ConfinedWhateverTheGrants` | backend/internal/tenancy/traceql.go:17-37 | For every accepted text, well formed or not: whatever the grants, the first spanset of an output that reads is confined to them, if and only if the output for one plain name does not read, or the first braces cut no literal and the text in them closes off no disjunct. |
| `TraceQLCut.WholeQueryWhateverTheGrants` | backend/internal/tenancy/traceql.go:9-37 | The same for the whole output: it is confined whatever the grants if and only if it does not read, or the first braces cut no literal, the text in them closes off no disjunct, and no further spanset follows. |
| `TraceQL.InjectedConditionsRead` | backend/internal/tenancy/traceql.go:29-32 | Each injected condition is a regular-expression match on the resource's cluster or namespace with the pattern of the names. |
| `LogSearch.ReadToken` | frontend/src/lib/logQuery.ts:53-61 | The inner loops stop, also on an unclosed quote, where the token ends. |
| `LogSearch.Tokenize` | frontend/src/lib/logQuery.ts:44-64 | The outer loop terminates on every string and yields the tokens that the laws below are about. |
| `LogSearch.RetokenizingIsStable` | frontend/src/lib/logQuery.ts:43-64 | Tokenizing the tokens joined by one space gives the same tokens, for every string. |
| `LogSearch.TokensOfExtended` | frontend/src/lib/logQuery.ts:43-64 | A query with an even number of quotes, a space and any query have the tokens of the one followed by those of the other. |
| `LogSearch.Parse` | frontend/src/lib/logQuery.ts:66-93 | The pushing loop sorts each token into field filters, includes or excludes. |
| `LogSearch.MatchesLogQuery` | frontend/src/lib/logQuery.ts:95-110 | The early-returning loops accept a log exactly when every field filter, include and exclude holds, empty terms saying nothing. |
| `LogSearch.TermsMean` | frontend/src/lib/logQuery.ts:6-18 | A quoted phrase, alone or after the contains operator, is required in the text, after `!=` it is forbidden, and after a field's name the field has to equal it or not, ignoring case. |
| `LogSearch.WordsMean` | frontend/src/lib/logQuery.ts:6-22 | Terms without quotes and spaces mean what quoted ones do, and a bare word, also one that looks like a field but names none, is searched for as it stands. |
| `LogSearch.SaysMeans` | frontend/src/lib/logQuery.ts:102-105 | A phrase is found exactly when the lower-cased message and label values, with a space in front of each value, have it as a substring. |
| `LogSearch.LabelIs` | frontend/src/lib/logQuery.ts:97 | A field is compared with the log's value of that label, or with the empty text when there is none. |
| `LogSearch.UnquotedIs` | frontend/src/lib/logQuery.ts:39-41 | Quotes come off when they stand at both ends, and not otherwise. |
| `LogSearch.UnclosedPhrase` | frontend/src/lib/logQuery.ts:54-77 | A quote that is never closed takes the rest of the query in, stays part of the phrase, and loses the space behind. |
| `LogSearch.FilterIs` | frontend/src/lib/logQuery.ts:112-116 | The result has exactly the logs that match, in the order of the list. |
| `LogSearch.FilterIsKeep` | frontend/src/lib/logQuery.ts:112-116 | The shortcut for a blank query is no special case. |
| `LogSearch.ExtendingFilters` | frontend/src/lib/logQuery.ts:13-18 | Terms combine with AND: filtering by an even-quoted query extended by another is filtering by one and then the other. |
| `LogSearch.SpacedExclusionSearches` | frontend/src/lib/logQuery.ts:69-76 | `!= phrase` with a space filters exactly as the phrase alone does. |
| `LogSearch.ExclusionNeedsNoSpace` | frontend/src/lib/logQuery.ts:11-16 | With any run of spaces between the operator and a quoted phrase, the term excludes the phrase from every log if and only if the run is empty or the phrase is. |
| `SeriesNames.ParseSeriesLabels` | frontend/src/dashboard/usePanelData.ts:121-136 | The loop over a global regular expression assigns all its matches in order, in the braced and in the bare shape. |
| `SeriesNames.ValueEndIff` | frontend/src/dashboard/usePanelData.ts:123-131 | A value ends at the first quote that no backslash escapes, unless a backslash stands before a line break. |
| `SeriesNames.NameRoundTrips` | frontend/src/dashboard/usePanelData.ts:121-136 | For every labelled series, parsing its printed name recovers its metric name, or none, and its whole label record, if and only if all keys are in lower case, all values are runs of characters other than quote and backslash and of backslash pairs without line break, and, in the braced shape, no value holds a line break. |
| `SeriesNames.LabelFreeName` | frontend/src/lib/datasource/queryGateway.ts:37 | A series without labels is printed as its metric name, or as `value`, and read back as that name alone. |
| `MetricBuilder.ParseLabels` | frontend/src/lib/promqlQuery.ts:57-66 | The loop over a global regular expression assigns all its matches in order. |
| `MetricBuilder.BlockReads` | frontend/src/lib/promqlQuery.ts:57-66 | A printed label block whose values hold no quote and no `}` reads back as its labels, filled in in order. |
| `MetricBuilder.CallReads` | frontend/src/lib/promqlQuery.ts:81-93 | A printed call is taken apart into its function, its argument and its grouping, up to the first place at which a grouping closes it. |
| `MetricBuilder.BuilderRoundTrips` | frontend/src/components/explore/MetricsExplorer.tsx:39-53 | For every query the builder can make, whatever the label values, what it prints is recognised and read back as the same query if and only if the aggregation is not p95, no value holds a double quote or a `}`, and an ungrouped selector does not read as a shorter call with a grouping; p95 is not recognised. |
| `MetricBuilder.BareSelectorParses` | frontend/src/lib/promqlQuery.ts:75-111 | A bare selector is recognized as its metric and labels, averaged and ungrouped. |
| `MetricBuilder.PreByParses` | frontend/src/lib/promqlQuery.ts:81-111 | A selector in a call whose grouping stands in front, with any space and in any case, is recognized as its metric and labels, with the aggregation of the function and the grouping of the label; unknown ones average and do not group. |
| `MetricBuilder.PostByParses` | frontend/src/lib/promqlQuery.ts:87-111 | A selector without a closing parenthesis, in a call of an aggregation whose grouping stands behind, with any space and in any case, is recognized as its metric and labels, aggregated and grouped so. |
| `MetricBuilder.SelectorIff` | frontend/src/lib/promqlQuery.ts:95-98 | A text is a selector with a given metric and block exactly when it is a metric name, blanks, and perhaps the block in braces without `}` in it. |
| `MetricBuilder.UnrecognizedFallsBack` | frontend/src/lib/promqlQuery.ts:69-73 | What is not recognized is taken for a metric, averaged and ungrouped, and blank text for an unknown one. |
| `MetricBuilder.UnknownCallIsUnrecognized` | frontend/src/lib/promqlQuery.ts:89-98 | A call of a function that is not one of the aggregations is not recognized. |
| `TableJoin.JoinLabels` | frontend/src/dashboard/usePanelData.ts:155-163 | A label is joined on exactly when it is some column's label and every target with data has a series carrying it. |
| `TableJoin.SameRowIff` | frontend/src/dashboard/usePanelData.ts:166-175 | Two visited series go to the same row exactly when they agree on every join label, an absent one reading as empty. |
| `TableJoin.KeyIsInjective` | frontend/src/dashboard/usePanelData.ts:166 | A tuple of fewer than two values, or of NUL-free ones, shares its key with no other of its length. |
| `TableJoin.KeyIsUniqueIffNulFree` | frontend/src/dashboard/usePanelData.ts:166 | Of two or more values, a key is one tuple's alone if and only if none of them holds a NUL. |
| `TableJoin.FillRow` | frontend/src/dashboard/usePanelData.ts:172-181 | One round of the inner loop brings the insertion-ordered map from the state after the earlier steps to the state after this one. |
| `TableJoin.FillColumn` | frontend/src/dashboard/usePanelData.ts:172-182 | The inner loop does so for all series of a column. |
| `TableJoin.BuildMergedTableRows` | frontend/src/dashboard/usePanelData.ts:149-192 | The nested loops and the completion compute the specified rows for every input. |
| `TableJoin.StepsOfColumn` | frontend/src/dashboard/usePanelData.ts:169-173 | The sequence of a column's steps: empty without a source; one for each series of the first target of the name, in order, and empty if there is none; otherwise one for each series of all targets, in order, target after target. |
| `TableJoin.StepsAreTraversal` | frontend/src/dashboard/usePanelData.ts:168-184 | The loops visit exactly the steps of the configured columns, one column after another. |
| `TableJoin.FirstSeenIsOrdered` | frontend/src/dashboard/usePanelData.ts:165-185 | Rows come in the order in which their tuples were first seen. |
| `TableJoin.FirstSeenOnce` | frontend/src/dashboard/usePanelData.ts:165-185 | Each tuple seen has exactly one row. |
| `TableJoin.RowsAreTheJoin` | frontend/src/dashboard/usePanelData.ts:138-192 | The table is the declarative join: a row for each distinct tuple of join-label values in first-seen order, each with every column, each cell from the last contributing series, else the dash. |
| `TableJoin.SeriesGives` | frontend/src/dashboard/usePanelData.ts:112-115 | What a series gives to a cell: its last point, rounded, or the rounded zero without points; in a label column the label as its name is parsed. |
| `TableJoin.CellFromLastSeries` | frontend/src/dashboard/usePanelData.ts:169-182 | Each cell of the table is the last point, rounded, or the label value, of the last series that contributes to it. |
| `TableJoin.CellWithoutSeries` | frontend/src/dashboard/usePanelData.ts:185-191 | A cell to which no series contributes holds a dash. |
| `Variables.ResolveExprVariables` | frontend/src/dashboard/usePanelData.ts:246-264 | The loop applies the two passes of each variable in turn. |
| `Variables.RefToken` | frontend/src/dashboard/usePanelData.ts:250-251 | A reference is a token of its own variable, unless it is bare and a word character follows it, and of no other, also when one name begins with another. |
| `Variables.ResolvedIsStep` | frontend/src/dashboard/usePanelData.ts:253-263 | One variable's two passes replace all its references at once but the bare ones that a word character follows, and change the operator of exactly the whole-value wildcard matchers. |
| `Variables.EnvironmentIs` | frontend/src/dashboard/usePanelData.ts:248-249 | Each variable stands for its current value, and one set to "All" for `.*`. |
| `Variables.ReferenceResolves` | frontend/src/dashboard/usePanelData.ts:246-264 | A reference alone, in either spelling, resolves to the current value of its variable, or to `.*`. |
| `Variables.MatcherResolves` | frontend/src/dashboard/usePanelData.ts:246-264 | A matcher whose whole value is one reference, in either spelling: the value takes its place, and an exact match becomes a regular-expression one exactly when the value has a `.*` in it. |
| `Variables.LoopIsSimultaneous` | frontend/src/dashboard/usePanelData.ts:246-264 | For every well-formed expression, the sequential loop is one simultaneous substitution if and only if no bare reference to one of the variables has come to be followed by a word character when that variable is set. |
| `Variables.OrderIsIrrelevant` | frontend/src/dashboard/usePanelData.ts:246-264 | Every order of the variables gives the simultaneous substitution if and only if in none of them a bare reference to one of the variables can come to be followed by a word character. |
| `Variables.AdjacentReferences` | frontend/src/dashboard/usePanelData.ts:251-263 | Two bare references in a row, to any two variables: the result is right in the order of the references, and in the other order if and only if the second value starts with no word character. |
| `Variables.AccidentalReference` | frontend/src/dashboard/usePanelData.ts:246-264 | When a reference and the value that comes to follow it spell out a third variable's name, the loop replaces both by that variable's value, which the simultaneous substitution never does. |
| `VariablesMeaning.AllSelectsEverything` | frontend/src/dashboard/usePanelData.ts:253-262 | A positive matcher whose operator touches the label and the quote, and whose whole value is an "All" variable, becomes `=~".*"` on the same label and selects the same series as leaving it out. |
| `VariablesMeaning.BlanksPreventUpgrade` | frontend/src/dashboard/usePanelData.ts:253-262 | With any blanks around the operator, the match becomes a regular-expression one if and only if there are none; otherwise it selects only series whose label is the text `.*`. |
| `Prober.Scheduler.ProcessCheck` | backend/cmd/blackbox-service/prober.go:125-140 | The check is marked whatever becomes of its probe, and nothing else is. |
| `Prober.Scheduler.Tick` | backend/cmd/blackbox-service/prober.go:90-104 | A failed load changes nothing; otherwise exactly the due checks are marked with the tick's time, whatever each probe does. |
| `Prober.TickEffect` | backend/cmd/blackbox-service/prober.go:97-121 | After a tick a check's mark is the tick's time exactly when it was loaded and due at the start of the tick, and unchanged otherwise: other checks in the list make no difference. |
| `Prober.ProbesAreSpaced` | backend/cmd/blackbox-service/prober.go:86-121 | Over every run with a non-decreasing clock, two probes of one check are at least its interval apart. |
| `Prober.NeverStale` | backend/cmd/blackbox-service/prober.go:90-115 | At every tick, an always-loaded check was last probed less than its interval ago. |
| `Prober.ProbesKeepUp` | backend/cmd/blackbox-service/prober.go:86-104 | Consecutive probes of an always-loaded check are less than its interval plus the largest tick gap apart. |
| `Signup.SlugifyGivesSlugs` | backend/cmd/auth-service/main.go:105-113 | Every result is a non-empty run of `a-z0-9-` without a dash at either end. |
| `Signup.SlugKeepsLettersAndDigits` | backend/cmd/auth-service/main.go:105-113 | No letter or digit of the lower-cased name is lost, added or moved, and a name without any becomes "tenant". |
| `Signup.SlugsAreFixed` | backend/cmd/auth-service/main.go:105-113 | Every such text is a fixed point. |
| `Signup.SlugifyIsIdempotent` | backend/cmd/auth-service/main.go:105-113 | Slugifying twice is slugifying once. |
| `Signup.SlugJoinsWords` | backend/cmd/auth-service/main.go:103-113 | Whatever stands at the ends of a name and in the gaps between its words, the slug is the words joined by single dashes. |
| `Signup.DecimalReads` | backend/cmd/auth-service/main.go:163 | Decimal printing can be read back, hence is injective. |
| `Signup.CandidatesDiffer` | backend/cmd/auth-service/main.go:152-164 | The candidates base, base-2, base-4, ... are pairwise different. |
| `Signup.CandidatesAreSlugs` | backend/cmd/auth-service/main.go:163 | Every candidate is itself a fixed point of slugify. |
| `Signup.Pigeonhole` | backend/cmd/auth-service/main.go:147-149 | Candidates that are all taken cannot outnumber the taken slugs. |
| `Signup.FreeSlug` | backend/cmd/auth-service/main.go:150-164 | The unbounded loop ends, within one more lookup than there are taken slugs, on the first free candidate. |
| `StatusCache.Cache.GetDatasourceStatus` | frontend/src/dashboard/usePanelData.ts:19-35 | The answer and the new state of the two module variables, for a fresh value, a request in flight, and neither. |
| `StatusCache.Cache.OnSettled` | frontend/src/dashboard/usePanelData.ts:25-32 | A completion fills the cache and clears the promise. |
| `StatusCache.AtMostOneInFlight` | frontend/src/dashboard/usePanelData.ts:13-18 | In every interleaving of callers and completions at most one request is under way, and it is the one the promise is for. |
| `StatusCache.FetchesAreSpaced` | frontend/src/dashboard/usePanelData.ts:13-18 | A new request starts no sooner than ten seconds after any completion. |
| `StatusCache.ImmediateIsRecent` | frontend/src/dashboard/usePanelData.ts:19-23 | A caller answered at once gets a value that a request brought less than ten seconds before. |
| `StatusCache.AwaitedCompletesLater` | frontend/src/dashboard/usePanelData.ts:24-34 | A caller that waits gets the value of a completion after its call. |

## Left out

- HTTP routing, cookies, JWT validation, bcrypt and proxying: claims, rows and parsed queries are inputs.
- The PromQL text parser and printer: the tree is what a parser returns, with no selector node shared between two places.
- PromQL functions that look at their argument's matchers rather than its value, such as `absent`: their result labels would show the injected matchers.
- Regular-expression classes, anchors, counted repetition and `\d`-like escapes: outside the grammar, and never emitted by the escaping.
- The alerts endpoint and the label-value endpoints: they enforce the same scope by the same patterns.
- READ COMMITTED overlap of two PUTs for one user: each transaction is one atomic step.
- Columns that carry no rule: environment, timestamps, password and token hashes, and the tenants' names and slugs as table columns.
- Creating the migrations table and reading the directory of files: the file list is an input, sorted and without duplicates.
- Token expiry, and the role checks at the head of the handlers: a session's claims are taken as issued, and the machine covers the requests that pass them.
- Gateway.SelectedQueryIsExact: states the PromQL path. For LogQL the same scope is enforced on the stream selector when `LogQLAccess.AcceptedIsScopedIff` says so, and for TraceQL on the spansets for which `TraceQLAccess.WhenConfined`, `TraceQLAccess.WholeQueryConfined` and `TraceQLCut.ConfinedWhateverTheGrants` say so; not on every query the two rewrites accept.
- LogQL.ScopedSelectorReads: for names with regular-expression operators, quotes or line feeds `Quoting.LiteralIsExactIff` says that the pattern is not the one of the names; a byte above 127 that a hexadecimal or octal escape writes is the character with that code; pipelines behind the selector are not read.
- LogQL.HiddenBraceBreaksScoping: determines the matcher in which the first `}` is, for all safe names; what all matchers read as is in `LogQLAccess.RawLiteralTakesInjection`, for names without a backquote, and `LogQLAccess.OpenStringIsUnreadable`, for names without comma, backquote and hash.
- LogQLAccess.ScopedWhateverTheGrants: the grants are of safe names without comma, backquote and hash; a name that holds one of these can end the literal, the piece or the code that it is pasted into, and then `LogQLAccess.AcceptedIsScopedIff` still says when an output that reads is right.
- Quoting.LiteralIsExactIff: a pattern outside the grammar of `Regex`, as `\d` is, counts as accepting nothing.
- TraceQLAccess.ScopedSpansetReads: a condition is opaque text with its literals, `!` applied to a parenthesised filter is not read, and comments (`//`) are not part of this reader; what an output whose first braces cut a literal accepts is not determined, but whether it reads and is confined is, in `TraceQLCut.CutReadsAlike` and `TraceQLCut.ConfinedWhateverTheGrants`.
- TraceQLAccess.ScopeReachesWholeQuery: the operators between spansets, and what they make of the spans each one finds, are not modelled; a query counts as confined when each of its spansets is.
- SeriesNames.NameRoundTrips: label names are words and metric names hold no `{`, as the data source's grammar has it; `SeriesNames.LabelFreeName` is the case without labels.
- SeriesNames.ParseSeriesLabels: keys are lower-cased in ASCII, which is all that `\w` can match.
- TableJoin.BuildMergedTableRows: lookups see only own properties, so a label or column named like a property of the object prototype is not covered; rounding to two decimals is a parameter; the order of an object's integer-like keys is part of the input order.
- Variables.ResolveExprVariables: the three built-in interval variables, replaced after the loop, are left in the text; the regular expressions are those for names of word characters, whose escaping changes nothing; a value is inserted as it is, where a `$&` or `$1` in it would mean something to the replacement of the second pass.
- Variables.LoopIsSimultaneous: covers expressions whose references are inside quoted values, with no other `$` there, where a `$` outside the quotes starts a built-in `$__...`; names of word characters that do not start with `__`; values that are non-empty and free of `$` and quotes; and references that can come to be followed by a word character only if no variable's name continues theirs (`Variables.Calm`). Without that last condition `Variables.AccidentalReference` shows what happens; the outcome can then be right by coincidence, when the third variable's value happens to be the text it replaces.
- Variables.OrderIsIrrelevant: the same expressions, names and values.
- `dedupeNames`, `mergeSeriesByTime`, legend templates and the one-row-per-series table: row-at-a-time reshaping.
- Overflow of durations, and clocks that step back: times are unbounded integers and the clock does not decrease.
- Trace lookup by id, ingest forwarding, support tickets, platform administration, check CRUD, cloud billing, charts and React components.
