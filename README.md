# Sharder — a Dafny model

`sharder/sharder.py` holds a database-backed sharder. It assigns each object of one
kind (a user, a home directory) to one of several buckets (hubs). It balances by
"least loaded first", and once an object has a bucket it always gets the same one.
An object is identified by `name`.

The model covers the whole `Sharder` class:

- **The `shard` table** is `Table.Store`, a class whose `rows: seq<Row>` field the
  session appends to. A row's position plays the part of its autoincrement `id`.
- **`Sharder`** is `Sharding.Sharder`, with the store and `kind` as constants and
  `hubs` as a mutable field. `hubs` is re-read on every call, since the test suite
  changes a hub's `extra_shards` on a live sharder.
- **Construction** is the static method `Open`. It runs the seeding loop and returns
  the sharder or the `MultipleResultsFound` error.
- **`_bucket_count`** is `BucketCount`. It runs the grouped query (`GroupedTotals`,
  itself a counting loop and a selection loop), the `extra_shards` dict loop and the
  loop that adds the biases.
- **`__str__`** is `Describe`. It produces the per-bucket `raw+extra=effective` lines
  and stops short of the JSON string. `Sharding.AsMap` is `Counter(dict)` by
  definition, and `Sharding.Subtract` is `Counter.__sub__`.
- **`shard`** is `Shard`. It does the lookup, the effective counts, the first minimum,
  the insert unless the bucket name is empty, and the return.

Each method is proved against pure specification functions:

- `Seed` for the seeding loop;
- `RawCounts`, `ExtraTable` and `EffectiveCounts` for the queries;
- `ShardStep` for one call of `shard`.

The properties the source promises are lemmas about those functions:

- **Seeding:** it only appends placeholders, keeps existing ones, fails exactly when
  `.scalar()` would see two rows, and a second construction adds nothing.
- **Single call:** an existing assignment is stable, a miss adds exactly one row, and
  the chosen bucket is least loaded.
- **Several calls:** `shard` is idempotent and keeps `(kind, name)` unique. Seeding
  keeps it unique only under a condition (`SeedPreservesUnique`), and a concrete run
  shows it can break it (`SeedAfterShardBreaksUnique`).
- **Placeholders across calls:** `shard` and seeding, of any kind, keep the table
  `Consistent`. In such a table no bucket has two placeholder-looking rows, and every
  row's bucket holds the placeholder of the row's kind. Seeding never fails on a
  consistent table, and the empty table is consistent.
- **The tests' tally:** the tests count the buckets that a second pass of `shard`
  returns. That pass changes nothing and repeats the first pass's answers, so the tally
  equals the per-hub assignment count (`SecondPassTally`). `Recount.TallyMap` is the
  tests' `shards` dict by definition: one key per bucket returned, holding how often.
  The `Tallied` lemmas state the tests' assertions on it: which keys, how many, their
  sum and their values.
- **Balance (four scenarios from the test suite):**
  - N fresh names over B equal hubs land as ⌊N/B⌋ or ⌈N/B⌉ per hub, with exactly
    `N mod B` hubs at the larger count;
  - after a bias of `d` is put on one hub, the next `d·(B−1)` names all go to the
    other hubs, and the following `B` names go one to each.

These rest on a general "water-filling" theory of greedy picks in module `Loads`.

Where the code and its documented intent differ, the model follows the code:

- Ties between equal effective counts are not broken by the order of the hub list.
  `min` returns the first minimum in the dict built from the query, and that dict is
  ordered by raw row count (ORDER BY total). So among equally loaded buckets, the one
  with fewer real rows wins; ties between equal raw counts are left to the database.
  `LeastLoaded` states exactly this.
- A bucket with rows of this kind that is not a configured hub does not count as
  zero: `extra_shards[b]` raises KeyError (`UnknownBucket`). A configured hub with
  no rows of this kind is not a candidate at all.
- The placeholder check ignores the kind, but the inserted placeholder carries the
  sharder's kind. So a second kind on the same table gets no placeholders, and its
  first `shard` raises ValueError from `min` of an empty dict (`OtherKindStarves`).
- Construction raises `MultipleResultsFound` when two rows look like a hub's
  placeholder (`.scalar()`). This class's own operations never produce such a table:
  starting from an empty table, every run of constructions and `shard` calls, of any
  kinds, stays `Consistent`, and seeding a consistent table never fails
  (`SeedKeepsConsistent`, `ShardKeepsConsistent`). The error needs a table written by
  something else: two constructors racing, or rows added or edited outside the class.

## Model

| member | source | states |
|---|---|---|
| Table.Store.Add | sharder/sharder.py:59-64 | `session.add` plus `commit` appends exactly the given row and changes nothing else |
| Table.Find | sharder/sharder.py:106-110 | `.first()` of the (kind, name) filter: `None` exactly when no row has that kind and name, otherwise the lowest position of such a row |
| Table.FindAppend | sharder/sharder.py:106-110 | after one more row, an earlier match is still the answer, otherwise the new row is found exactly when it has the key |
| Table.CountAppend | sharder/sharder.py:67-73 | one more row raises the count of its own (kind, bucket) by one and no other count |
| Table.OfKindAppend | sharder/sharder.py:69 | one more row raises the number of rows of its kind by one and no other kind's |
| Table.PlaceholderCountAppend | sharder/sharder.py:54-57 | one more row raises a bucket's placeholder-row count by one exactly when it is that bucket's `dummy-` row, of any kind |
| Table.BucketsAppend | sharder/sharder.py:70 | the grouped buckets after one more row are the old ones plus that row's bucket when it has this kind, and no others |
| Table.CountPositive | sharder/sharder.py:70 | a bucket has a positive count of this kind exactly when the GROUP BY yields it |
| Table.RawCountsAppend | sharder/sharder.py:67-76 | the grouped counts after one more row: that row's bucket goes up by one, entering at 1 if absent; nothing else changes |
| Table.RawCountsSum | sharder/sharder.py:67-76 | the raw per-bucket counts add up to the number of rows of this kind |
| Table.ExtraTableAt | sharder/sharder.py:79-81 | the `extra_shards` dict has one key per configured hub name; a hub not followed by one of the same name maps to its own `extra_shards`, 0 when absent |
| Table.ExtraTableDistinct | sharder/sharder.py:79-81 | with distinct hub names, each hub maps to its own `extra_shards` |
| Table.ExtraTableUpdate | sharder/test_sharder.py:87 | changing one hub's `extra_shards` (distinct names) changes only that key of the extra table |
| Table.EffectiveAppend | sharder/sharder.py:83-84 | one more row in a candidate bucket raises exactly that bucket's effective count by one |
| Table.Reconfigure | sharder/sharder.py:79-84 | changing one hub's bias shifts only that bucket's effective count, by the difference of the biases, and leaves every other count alone |
| Seeding.SeedAppendsPlaceholders | sharder/sharder.py:52-64 | seeding keeps all existing rows as a prefix and every appended row is the placeholder, with this kind, of a hub that had no placeholder-looking row |
| Seeding.SeedKeepsExisting | sharder/sharder.py:53-58 | a hub that already has a placeholder-looking row gets no new one |
| Seeding.SeedFails | sharder/sharder.py:53-57 | construction raises `MultipleResultsFound` if and only if some hub has more than one placeholder-looking row |
| Seeding.SeedCovers | sharder/sharder.py:52-64 | after successful seeding every hub has exactly one placeholder-looking row |
| Seeding.SeedNothingToDo | sharder/sharder.py:52-64 | when every hub already has exactly one placeholder, seeding leaves the table unchanged and succeeds |
| Seeding.SeedIdempotent | sharder/sharder.py:52-64 | constructing a second time, under any kind, adds no rows and succeeds |
| Seeding.SeedFresh | sharder/sharder.py:52-64 | with distinct hub names and no placeholders yet, seeding appends one placeholder per hub in hub order |
| Seeding.SeedEmpty | sharder/sharder.py:52-64 | seeding an empty table gives exactly the placeholders of the hubs |
| Seeding.PlaceholdersCount | sharder/sharder.py:59-63 | with distinct names the placeholders put one row of this kind in each hub's bucket |
| Seeding.PlaceholderLoads | sharder/sharder.py:66-86 | on a freshly seeded table every hub is a candidate, with effective count 1 plus its `extra_shards` |
| Decimal.DigitValue | sharder/sharder.py:96 | a character is a digit exactly when it has a value, and that value's digit is the character |
| Decimal.Digits | sharder/sharder.py:96 | the decimal text of a natural number is non-empty and made of digits only |
| Decimal.DigitsRoundTrip | sharder/sharder.py:96 | the decimal text of a natural number parses back to it |
| Decimal.ShowRoundTrip | sharder/sharder.py:96 | the f-string rendering of any integer, negative included, parses back to it |
| Decimal.ShowAlphabet | sharder/sharder.py:96 | that rendering uses only digits and the minus sign |
| Decimal.SplitFirst | sharder/sharder.py:96 | splitting at the first separator recovers the part before it when that part has none |
| Decimal.SummaryRoundTrip | sharder/sharder.py:96 | the three numbers of a `raw+extra=effective` text can be read back from it |
| Sharding.FirstMinimum | sharder/sharder.py:117 | `min` over the ordered dict: fails exactly when it is empty, else an index whose total is minimal and strictly below every earlier total |
| Sharding.CountRows | sharder/sharder.py:67-76 | the counting loop yields exactly the per-bucket row counts of this kind |
| Sharding.OrderByTotal | sharder/sharder.py:70-72 | ORDER BY total: every counted bucket exactly once, with its count, in non-decreasing order of count |
| Sharding.LoadTableLoads | sharder/sharder.py:74-86 | the ordered effective table holds the same buckets and values as the effective-count map |
| Sharding.ChoiceIsLeastLoaded | sharder/sharder.py:116-117 | the first minimum of the effective table has least effective count, and the least raw count among those tied with it |
| Sharding.SubtractSameKeys | sharder/sharder.py:92 | over the same keys, Counter subtraction gives the difference where positive and 0 elsewhere |
| Sharding.ReportEntry | sharder/sharder.py:89-96 | each bucket's line shows its raw count, its bias when positive (0 otherwise) and raw plus bias |
| Sharding.ReportsFromTable | sharder/sharder.py:94-96 | one expected line per grouped bucket, in query order, is a full report |
| Sharding.Sharder.constructor | sharder/sharder.py:38-42 | binds store, kind and hubs |
| Sharding.Sharder.Open | sharder/sharder.py:38-64 | the table becomes exactly `Seed` of the old table; the error is `MultipleResultsFound` exactly when seeding fails; otherwise a new sharder over the given store, kind and hubs |
| Sharding.Sharder.GroupedTotals | sharder/sharder.py:67-73 | one entry per bucket with rows of this kind, carrying its count, in non-decreasing order of count |
| Sharding.Sharder.BucketCount | sharder/sharder.py:66-86 | without extras the grouped counts; with extras, success exactly when every counted bucket is a hub, each total raised by the hub's bias, query order kept; otherwise KeyError |
| Sharding.Sharder.Describe | sharder/sharder.py:88-98 | KeyError when a bucket is not a hub; otherwise one `raw+extra=effective` line per bucket of this kind, once each, in query order |
| Sharding.Sharder.Shard | sharder/sharder.py:100-125 | one `ShardStep`: existing row gives its bucket and no change; otherwise KeyError, ValueError on no candidates, or a least-loaded bucket with one row appended unless its name is empty |
| Assignment.ShardReturnsExisting | sharder/sharder.py:106-114 | with unique keys, a name already assigned gets its recorded bucket and the table is unchanged |
| Assignment.ShardAppendsAtMostOne | sharder/sharder.py:116-125 | the table changes exactly when the name was unassigned and a non-empty bucket was chosen, and then by the one row (kind, bucket, name) |
| Assignment.ShardMissLoads | sharder/sharder.py:116-123 | on a recorded miss the chosen bucket is least loaded and only its effective count goes up, by one |
| Assignment.ShardIdempotent | sharder/sharder.py:100-125 | a second `shard` of the same name returns the same answer and changes nothing: after a first call that found an existing row, whatever its bucket (even the empty one) and under any new hubs; after a first call that recorded a bucket, under any new hubs; and after a failed first call, under the same hubs. Two cases are not covered. A first call that chose the empty bucket name records nothing, so a tied bucket may come back next time. A failed first call followed by changed hubs may then succeed |
| Assignment.ShardPreservesUnique | sharder/sharder.py:106-123 | `shard` keeps at most one row per (kind, name) |
| Assignment.OtherKindStarves | sharder/sharder.py:53-61 | a second kind on a table seeded by the first gets no placeholders and its first `shard` raises ValueError |
| Consistency.DummyInjective | sharder/sharder.py:55 | two buckets have the same placeholder name exactly when they are the same bucket |
| Consistency.SeedPreservesUnique | sharder/sharder.py:52-64 | seeding keeps at most one row per (kind, name) when no hub it seeds already has a row of this kind named like its placeholder |
| Consistency.SeedAfterShardBreaksUnique | sharder/sharder.py:53-61 | seed hub `h2`, shard `dummy-h1` (it goes to `h2`), open again with `h1`, `h2`: seeding succeeds, adds `(kind, h1, dummy-h1)` and leaves two rows with key (kind, `dummy-h1`) |
| Consistency.EmptyConsistent | sharder/sharder.py:44 | the freshly created table is consistent |
| Consistency.ShardKeepsConsistent | sharder/sharder.py:100-125 | a `shard` call of any kind under any hubs keeps the table consistent |
| Consistency.SeedKeepsConsistent | sharder/sharder.py:52-64 | seeding a consistent table, of any kind with any hubs, never raises `MultipleResultsFound` and keeps it consistent |
| Loads.GreedyKeys | sharder/sharder.py:117-119 | greedy picks never add or remove buckets |
| Loads.TotalAdd | sharder/sharder.py:119 | raising one bucket's load by x raises the total by x |
| Loads.TotalMono | sharder/sharder.py:119 | pointwise larger loads have a larger total, strictly exactly when some load is strictly larger |
| Loads.TotalTwoLevels | sharder/test_sharder.py:42-63 | loads at lo or lo+1 total B·lo plus the number at lo+1 |
| Loads.NumAtNone | sharder/test_sharder.py:36-40 | no bucket is at a value exactly when that value's count is zero |
| Loads.Fill | sharder/sharder.py:116-123 | while below a level, greedy picks keep every load between its start and the level and raise the total by one each |
| Loads.PickBelow | sharder/sharder.py:117 | a least-loaded bucket of a partial fill is below the level |
| Loads.FillComplete | sharder/sharder.py:116-123 | after exactly the missing amount of picks, every load is the larger of its start and the level |
| Loads.EvenSplit | sharder/test_sharder.py:17-63 | from equal loads, n greedy picks over B buckets leave each at base+⌊n/B⌋ or one more, with exactly n mod B at the higher |
| Loads.EvenSplitBelow | sharder/test_sharder.py:17-63 | the same split read on assignment counts, which lie a constant below the loads |
| Loads.EvenLevels | sharder/test_sharder.py:17-40 | when B divides n, greedy picks from equal loads leave all at base+n/B |
| Loads.CatchUp | sharder/test_sharder.py:85-125 | one bucket d ahead: the next d·(B−1) picks go to the others, and B more go one each |
| Loads.CatchUpLevels | sharder/test_sharder.py:85-125 | the same run reaches the common level base+d and then base+d+1 |
| Balance.FreshStep | sharder/sharder.py:116-123 | one call on a new name with candidates and no empty bucket name returns a least-loaded bucket and appends its row |
| Balance.StepKeepsOthers | sharder/sharder.py:106-123 | a call on one name does not assign any other name |
| Balance.TraceFresh | sharder/test_sharder.py:26 | along sequential calls on distinct new names, the names still to come remain unassigned |
| Balance.TraceAllFresh | sharder/test_sharder.py:26 | every call of such a run is on an unassigned name |
| Balance.TraceStep | sharder/sharder.py:116-125 | a call of a fresh run returns a least-load pick and moves the effective counts to that pick's result |
| Balance.KeysAlong | sharder/test_sharder.py:26 | every state of a fresh run has well-defined, non-empty effective counts without the empty bucket name |
| Balance.PickAtTrace | sharder/sharder.py:116-125 | each call of a fresh run is one greedy pick on the effective counts |
| Balance.TraceGreedy | sharder/test_sharder.py:25-26 | a run of `shard` calls on fresh names is a greedy run over the effective counts |
| Balance.SeededLoads | sharder/sharder.py:52-64 | a freshly seeded table has each hub at 1 plus its bias, keys listed by the hub names |
| Balance.SeededUniform | sharder/sharder.py:52-64 | with equal biases, every hub starts at the same effective count |
| Balance.LoadsAsAssignments | sharder/test_sharder.py:28-34 | with equal biases, effective count is real assignments plus the placeholder plus the bias |
| Balance.FinalAssignments | sharder/test_sharder.py:28-34 | the same relation at the end of a greedy run |
| Balance.UniformSplit | sharder/test_sharder.py:17-63 | N fresh names over B hubs with equal biases: every hub gets ⌊N/B⌋ or ⌈N/B⌉ names, and exactly N mod B get the larger |
| Balance.UniformFrom | sharder/test_sharder.py:17-63 | the same split from any start where all hubs are level |
| Balance.TraceLoadsAt | sharder/test_sharder.py:26 | every intermediate state of a fresh run has the load the greedy run records |
| Balance.LoadsAsAssignmentsAt | sharder/test_sharder.py:101-105 | per hub, effective count is assignments plus one plus its own bias |
| Balance.EvenLoads | sharder/test_sharder.py:74-75 | when B divides N, all hubs end at the same effective count 1+bias+N/B |
| Balance.EvenLoadsFrom | sharder/test_sharder.py:74-75 | the same from any level start |
| Balance.CatchUpRun | sharder/test_sharder.py:85-125 | with one hub d ahead, the fresh run levels all hubs after d·(B−1) names and raises them all by one after B more |
| Balance.OffsetSharesFrom | sharder/test_sharder.py:101-105 | level effective counts with bias d on one hub mean that hub has d fewer assignments than each other hub |
| Balance.Reconfigured | sharder/test_sharder.py:87 | setting hub h's bias to d on a level table puts h exactly d ahead, others unchanged |
| Balance.ShardWithOffset | sharder/test_sharder.py:65-125 | after B·a names and then a bias d on hub h, the next d·(B−1) names leave h at a and the rest at a+d; B more make that a+1 and a+d+1 |
| SharderTests.SingleShard | sharder/test_sharder.py:13-15 | one hub `hub-1`: `shard("user")` on the fresh table returns `hub-1` and records it |
| SharderTests.EqualShards | sharder/test_sharder.py:17-40 | 100 names over ten hubs give every hub 10 |
| SharderTests.UnequalShards | sharder/test_sharder.py:42-63 | 99 names over ten hubs give each 9 or 10, and exactly nine hubs 10 |
| SharderTests.EqualShardsTallied | sharder/test_sharder.py:26-40 | the tally of the second pass over the 100 entries has ten keys, the hubs, summing to 100, each 10 |
| SharderTests.UnequalShardsTallied | sharder/test_sharder.py:51-63 | the tally of the second pass over the 99 entries has ten keys, the hubs, summing to 99, each 9 or 10 and exactly nine of them 10 |
| Recount.TallyPositive | sharder/test_sharder.py:31-34 | a bucket gets a key in the tally exactly when some call returned it |
| Recount.TallyConcat | sharder/test_sharder.py:90-96 | counting on into the same dict adds the counts of the two runs |
| Recount.TallySum | sharder/test_sharder.py:37 | over distinct keys that include every pick, the counts add up to the number of picks |
| Recount.TallyOver | sharder/test_sharder.py:36-37 | when the picks are hubs and every hub was picked, the tally has exactly the hubs as keys, as many entries as hubs, and values summing to the number of picks |
| Recount.RunTally | sharder/test_sharder.py:90-96 | a fresh run from known loads returns hub names only, and after k calls each bucket's count has grown by how often those calls returned it |
| Recount.AppendedRows | sharder/sharder.py:119-123 | after k appending calls the table is the start followed by the k recorded rows, and each bucket's count has grown by the number of names given to it |
| Recount.FirstPassAppends | sharder/test_sharder.py:26 | a first pass over fresh names succeeds on every call and appends each name's row |
| Recount.RecordedFound | sharder/sharder.py:106-110 | after the first pass, the first row keyed by each name is the one recorded for it |
| Recount.SecondPass | sharder/sharder.py:106-114 | a pass over names that all have a row leaves the table unchanged and returns each name's recorded bucket, under any hubs |
| Recount.FirstPassRecords | sharder/test_sharder.py:26 | after the first pass each name's first row carries the bucket it got, and the counts grew by the tally of those buckets |
| Recount.SeededCounts | sharder/sharder.py:52-64 | in the freshly seeded table each hub's bucket holds one row of this kind |
| Recount.SecondPassTally | sharder/test_sharder.py:26-34 | after a first pass over fresh names from the seeded table, the second pass leaves the table as it is, repeats each answer, returns hub names only, and returns each hub exactly as often as it has assignments |
| SharderTests.ShardsWithOffset | sharder/test_sharder.py:65-125 | after 100 names and a bias 2 on hub 0, 18 more leave it at 10 and the others at 12; 10 more make that 11 and 13 |
| SharderTests.ShardsWithOffsetTallied | sharder/test_sharder.py:74-125 | as the test counts: the second pass over the first 100 entries, then 18 entries under the bias, give a tally with the ten hubs as keys, summing to 118, 10 for hub 0 and 12 for the others; 10 more give 128 in all, 11 and 13 |

## Left out

- SQLAlchemy: engine, `sessionmaker`, `create_all` and sessions are replaced by the in-memory `Store`. `commit` is folded into `Store.Add`, since nothing in the class rolls back.
- The `Index` and `UniqueConstraint` declarations: the model assumes that no database constraint rejects an insert. Whether SQLAlchemy attaches these class-body expressions to the table is not settled by the code. `shard` keeps (kind, name) unique by its lookup alone (`ShardPreservesUnique`). Seeding does not. After `SeedAfterShardBreaksUnique`'s steps, an attached constraint would make that construction raise IntegrityError, where `Open` returns the sharder.
- Sharding.Sharder.Open: does not promise to keep (kind, name) unique. `SeedPreservesUnique` gives a sufficient condition, and `SeedAfterShardBreaksUnique` is a run that breaks it.
- Table.Find: takes "the first row" of `.first()` to be the lowest position. The query has no ORDER BY, so that order is an assumption about the database. It decides the answer only when two rows share a (kind, name), which seeding can produce.
- `String(256)` column widths: names and buckets are unbounded strings.
- Logging (`self.log.info`): it has no effect on results.
- `json.dumps` in `__str__`: `Describe` returns the per-bucket lines, without the JSON text or its escaping.
- Non-integer `extra_shards` values: the configuration documents `extra_shards` as an integer, and the model takes it to be one. The code would also accept a float or a bool (Python adds them to the int count, and `min` and the f-string work on the sums); those values are not modelled.
- The database's order among buckets with equal raw counts: `OrderByTotal` fixes one order. The contracts of `GroupedTotals`, `BucketCount` and `Shard` allow any such order.
- Concurrency: it is not modelled. Two sharders inserting at once, and any retry on duplicate keys, depend on the database and are not in the code.
- `sharder/admin.py`: the command-line tool is not part of this model. It is argument parsing, printing and single queries.
- `sharder/test_sharder.py`: only its assertions are stated. The lemmas quantify over every run of `shard` calls, assuming these facts about the fixtures:
  - the entry names are pairwise different and new;
  - the hub names are distinct and non-empty.
- Balance.UniformSplit: states the split for hubs with equal biases only. The test suite and the code promise nothing for unequal biases except the one-offset scenario in `ShardWithOffset`.
