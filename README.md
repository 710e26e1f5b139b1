# Casper testnet scoring, modelled in Dafny

This project models the scoring pipeline of CasperTestnetScoring, a service that
scores the nodes of the Casper test network every five minutes. The pipeline is
`main` in `app/src/casper/services.py`. It has five stages:

- **monitoring_score** polls every known node. It stores each node's public key and
  block height, registers newly advertised peers, and refreshes the auction state
  (bids, stakes, the network weight). It then records one interval row (`Score`) per
  node that has a key. A row is *active* when its node is within four blocks of the
  tallest node and has an active bid.
- **calculate_day_scoring** turns today's interval rows into one day record per node
  (`Scoring`, type `D`). The record holds:
  - the percentage of intervals the node was active;
  - a *longevity* that carries yesterday's longevity forward, or resets it after a poor full day;
  - a stake flag for holding 6% or more of the network weight.
- **calculate_week_scoring** folds the day records of the current Monday–Sunday window
  into a week record (`W`). The score is averaged over seven days and cut by 10% when
  the node was over the stake limit.
- **determine_eligible_rewards** ranks the week records by score, then longevity, and
  marks the first hundred eligible.
- **calculate_quarter_rewards** sums the eligible week scores of the calendar quarter
  into a quarter record (`Q`). That record is eligible exactly when the sum is non-zero.

The model is one class, `Services.Database`, which holds the three tables:
- `nodes`, the node registry;
- `scores`, the interval rows;
- `scorings`, the day, week and quarter records.

Each stage is a method of that class, with its loops and in-place updates. Each stage
is proved against a pure specification in its own module:

| module | what it specifies |
|---|---|
| `Polling` | status responses and peers |
| `Auction` | the auction fetch and the bids |
| `Intervals` | interval rows |
| `ScoringTable` | `get_or_create` as an upsert |
| `Rollups` | the day, week and quarter folds |
| `Eligibility` | the top-hundred marking |

The lemmas state what the pipeline promises on top of those specifications.

Supporting modules:
- `Calendar` models Python's proleptic Gregorian dates: `toordinal`, `weekday`, `timedelta` arithmetic and the `'%Y.%m.%d'` format.
- `Periods` models the week and quarter keys.
- `Text` models `strip`, `lower` and `split`.

The network responses, the auction reply, the bootstrap listing and the current time
are parameters. The model itself fetches nothing and reads no clock.

## Model

| member | source | states |
|---|---|---|
| Models.NewNodeIsUnresolved | app/src/core/models.py:5-15 | A node created from an address has no public key, height 0, network weight 0, no active bid, no stake and a zero share, so it is neither scored nor active |
| Models.KindOfCode | app/src/core/models.py:58-65 | Every stored type letter `D`, `W`, `Q` reads back as the record type that writes that letter |
| Models.NewScoringDefaults | app/src/core/models.py:64-70 | A freshly created scoring record has type `D`, score 0, longevity 0, no stake flag and is not eligible |
| Models.RankingIsStrictWeakOrder | app/src/core/models.py:72-73 | The ordering by score descending then longevity descending is irreflexive and transitive, its ties chain, and any two records are ordered or tie on both fields |
| Polling.HostOf | app/src/casper/services.py:192-195 | The host taken from a peer address never contains `:` |
| Polling.HostOfAddress | app/src/casper/services.py:192-195 | For an address `host:port` the host taken is exactly the text before the first `:` |
| Polling.ApplyResponse | app/src/casper/services.py:171-189 | One response rewrites only the node with its address: that node's height becomes the response's height (0 when unreadable), and its key becomes the response's stripped, lower-cased key when that is non-empty and stays otherwise; every other node is unchanged, addresses stay distinct |
| Polling.ApplyResponses | app/src/casper/services.py:171-189 | The response loop adds and removes no node, changes no address, and changes only the key and height fields |
| Polling.KeyComesFromResponse | app/src/casper/services.py:174-187 | After the loop a node's key is its old key or the non-empty stripped, lower-cased key of a response for its address |
| Polling.KeyFromLastKeyedResponse | app/src/casper/services.py:174-187 | The last response for a node's address that carries a non-empty key sets the node's key to it, whatever keyless responses follow |
| Polling.ResolvedStaysResolved | app/src/casper/services.py:186-187 | A node that has a key never loses it to a response without one |
| Polling.HeightFromLastResponse | app/src/casper/services.py:179-189 | A node's height is the height of the last response for its address, 0 when that response had none |
| Polling.UnpolledNodeUnchanged | app/src/casper/services.py:171-189 | A node for whose address no response came is left exactly as it was |
| Polling.PeerHosts | app/src/casper/services.py:192-195 | Every collected peer host is free of `:` |
| Polling.PeerHostsMeaning | app/src/casper/services.py:192-195 | A host is collected iff it is the host of a peer address advertised by some response |
| Text.SplitParts | app/src/casper/services.py:381 | No part of a split contains the separator |
| Text.SplitJoin | app/src/casper/services.py:381 | Joining the parts of a split with the separator gives the text back |
| Text.NatToStringValue | app/src/casper/services.py:290 | The decimal text of a week or quarter number reads back as that number |
| Polling.HostsOf | app/src/casper/services.py:193-195 | The hosts of a peer list are, position by position, the host parts of its addresses |
| Polling.AdvertisedHostsRegistered | app/src/casper/services.py:192-202 | After polling, the host of every peer advertised by any response is a registered node |
| Polling.AddPeersMeaning | app/src/casper/services.py:199-202 | Adding peers keeps existing rows; afterwards an address is registered iff it was before or is listed; new rows are default nodes of listed addresses; addresses stay distinct |
| Polling.PollingKeepsNodes | app/src/casper/services.py:150-202 | Polling never removes a node or changes its address, and a node with a key keeps one |
| Auction.GetAuctionInfo | app/src/casper/services.py:95-110 | At most three attempts are made; the reply is the body of the first attempt with status 200, else the empty reply after three failures |
| Auction.ValidatorKeys | app/src/casper/services.py:127-132 | A key is in the validator set iff it is the lower-cased key of some validator weight entry |
| Auction.ApplyBid | app/src/casper/services.py:138-144 | A bid gives a node its bid status, the network weight and its own plus delegated stake, and a zero share unless its key is a validator's; address, key and height are kept |
| Auction.ApplyBids | app/src/casper/services.py:136-144 | The bid loop changes no node's address, key or height |
| Auction.UnmatchedNodeUnchanged | app/src/casper/services.py:136-138 | A node whose key no bid names is left unchanged |
| Auction.LastMatchingBidWins | app/src/casper/services.py:136-144 | A node named by bids ends with the state the last such bid gives it, and no division by zero occurs for it |
| Auction.MatchedNodeShare | app/src/casper/services.py:140-143 | A node named by a bid carries the network weight; its share is stake times 100 over the weight if it is a validator and 0 otherwise |
| Auction.LastMatch | app/src/casper/services.py:136-138 | The last bid naming a key at or after a given bid names that key, and no later bid does |
| Auction.AuctionUpdate | app/src/casper/services.py:113-144 | An empty auction reply leaves every node unchanged; any reply keeps the number of nodes and every node's address, key and height |
| Intervals.MaxHeight | app/src/casper/services.py:205 | The maximum height is the height of some node and at least every node's height |
| Intervals.IntervalRows | app/src/casper/services.py:213-230 | Every interval row belongs to a node with a key and copies that node's state at the shared timestamp, with `active` per the four-block rule |
| Intervals.RowsOn | app/src/casper/services.py:242-250 | The rows of a node on a day are rows of the table for that node and that date |
| Intervals.RowsOnMeaning | app/src/casper/services.py:249 | A row is among a node's rows of a day iff it is a table row of that node dated that day; none is missed |
| Intervals.OneRowPerKeyedNode | app/src/casper/services.py:215-230 | A snapshot gives each node with a key exactly one row on the snapshot's day and a node without a key none |
| Intervals.ActiveMeansNearTheTip | app/src/casper/services.py:205-228 | A row is active iff its node has an active bid and lags the tallest node by at most four blocks, a lag never negative |
| ScoringTable.SelectMeaning | app/src/casper/services.py:306 | A record is selected iff it is a table record of that node and that type; none is missed |
| ScoringTable.Find | app/src/casper/services.py:265-266 | A lookup finds a record iff one with that node, type and key exists, and returns such a record |
| ScoringTable.Apply | app/src/casper/services.py:276-280 | The stage's assignments keep the record's identity |
| ScoringTable.ApplyTwice | app/src/casper/services.py:276-280 | Making the same assignments twice is making them once (the stake flag is only raised) |
| ScoringTable.Upsert | app/src/casper/services.py:276-280 | get_or_create then save updates the one record with the identity, or appends one; every other record is unchanged and identities stay unique |
| ScoringTable.UpsertFind | app/src/casper/services.py:276-280 | After an upsert the identity holds the old or default record with the assignments applied; every other identity reads as before |
| ScoringTable.UpsertAllFind | app/src/casper/services.py:247-280 | After a stage's loop each updated node's record is its earlier or default record with its update applied; every other identity reads as before |
| ScoringTable.UpsertAllIdempotent | app/src/casper/services.py:247-280 | Repeating a stage's upserts with the same updates leaves the table unchanged |
| ScoringTable.UpsertAllKeepsOtherKinds | app/src/casper/services.py:302-337 | A stage writing one record type leaves every node's records of the other types as they were |
| ScoringTable.FindKeysKept | app/src/casper/services.py:351-353 | Tables whose records have the same identities at each position hold the same identities |
| Rollups.CountActive | app/src/casper/services.py:252 | The active count never exceeds the number of rows |
| Rollups.CountActiveMeaning | app/src/casper/services.py:252 | The active count is the number of positions holding an active row |
| Rollups.MaxRows | app/src/casper/services.py:242-243 | max_scores bounds every keyed node's row count for the day and is attained by one of them (0 only when no keyed node has rows) |
| Rollups.DayScoreBounds | app/src/casper/services.py:255 | The day score is between 0 and 100, and is 100 exactly when the node was active in every interval max_scores counts |
| Rollups.DayUpdateReadsPrevious | app/src/casper/services.py:262-270 | Of the scoring table, a node's day update reads only that node's record for the previous day |
| Rollups.DayKeysDiffer | app/src/casper/services.py:237-276 | The previous day's key is never today's key |
| Rollups.DayRecord | app/src/casper/services.py:247-281 | Each keyed node gets today's record: the activity percentage in [0, 100]; longevity reset to 0 by a score under 90 on a full day, else yesterday's longevity plus the score; stake flag raised by any row at 6% or more, never lowered; eligibility untouched |
| Rollups.DayStageLeavesRest | app/src/casper/services.py:247-281 | The day stage writes no other day's record, no other type's record, and no record of a node without a key |
| Rollups.DayStageIdempotent | app/src/casper/services.py:233-281 | Running the day stage twice on the same rows gives the table one run gives |
| Rollups.WeekTallyMeaning | app/src/casper/services.py:303-324 | The week loop's score is the sum of the scores of the node's days in the window; it raises the stake flag iff some day in the window had it; it keeps the latest window day's date and that day's longevity, or the starting point when no day is in the window |
| Rollups.WeekPenalty | app/src/casper/services.py:326-330 | A penalised week scores 0.9 of the seven-day average, an unpenalised one the average; a non-negative sum gives a score between 0 and the average |
| Rollups.WeekRecord | app/src/casper/services.py:302-337 | Each keyed node gets the week record: score and longevity from its days in the window, stake flag raised by any such day, eligibility untouched |
| Rollups.WeekUpdatesReadDays | app/src/casper/services.py:306 | The week updates depend on nothing but each node's day records |
| Rollups.WeekStageIdempotent | app/src/casper/services.py:295-337 | The week stage changes no day record, and a second run gives the table one run gives |
| Models.ByRankMeaning | app/src/core/models.py:72-73 | Reading records under Scoring.Meta.ordering gives the same records (as a multiset), none ranking above one read before it |
| Rollups.QuarterTallySum | app/src/casper/services.py:379-390 | In any reading order, the quarter loop's score is the sum of the scores of the eligible weeks inside the quarter |
| Rollups.EligibleSumByRank | app/src/casper/services.py:379-390 | Reading the week records best first instead of in table order does not change that sum |
| Rollups.QuarterTallyBest | app/src/casper/services.py:379-395 | Read best first, the strict later-start test keeps the longevity of the best-ranked week among those in the quarter starting latest |
| Rollups.BestStartingOnUnique | app/src/core/models.py:72-73 | Any two best-ranked weeks starting latest have the same score and longevity, so the database's order among equally ranked records does not change the quarter longevity |
| Rollups.QuarterTallyMeaning | app/src/casper/services.py:375-395 | Over a node's week records read best first: the score is the sum of the eligible weeks inside the quarter (0 when none was eligible); the stake flag is raised iff such a week had it; the longevity is that of the best-ranked week among those in the quarter starting latest, 0 when none starts after 0001-01-01 |
| Rollups.QuarterRecord | app/src/casper/services.py:375-404 | Each keyed node gets the quarter record: the sum of its eligible in-quarter week scores; the longevity of its best-ranked in-quarter week among those starting latest; eligible iff the score is non-zero, so never when no week in the quarter was eligible; stake flag raised by an in-quarter week that had it, never lowered |
| Rollups.QuarterStageIdempotent | app/src/casper/services.py:356-404 | The quarter stage changes no week record, and a second run gives the table one run gives |
| Periods.MondayOf | app/src/casper/services.py:287 | The week starts on the Monday on or before the date, less than seven days earlier |
| Periods.WeekNumber | app/src/casper/services.py:289 | The week number counts weeks since the quarter's first day and is at least 1 |
| Periods.WeekOf | app/src/casper/services.py:284-292 | The window starts on a Monday and ends six days later, holds the date, keeps the time of day at both ends, and has a week number of at least 1 |
| Periods.WeekWindowDays | app/src/casper/services.py:298-310 | A day record lies in the window iff its date is after Monday (or on Monday when the window was computed at midnight) and at most Sunday |
| Periods.WeekKeyTail | app/src/casper/services.py:381 | The text after a week key's last `:` is exactly the ` <start> - <end>` range the key was written with |
| Periods.RangeRoundTrip | app/src/casper/services.py:381-383 | Splitting a written range on `-`, stripping and parsing both halves gives back the two dates |
| Periods.WeekKeyRoundTrip | app/src/casper/services.py:381-383 | Splitting a week key after its last `:` and on `-`, then stripping and parsing both halves, gives back exactly the start and end dates it was written from |
| Periods.QuarterBounds | app/src/casper/services.py:362-370 | Quarter n of a year runs from the 1st of month 3n-2 to the last day of month 3n, both valid dates of that year |
| Periods.QuarterOf | app/src/casper/services.py:360-371 | The quarter number is (month - 1) // 3 + 1; its bounds are valid dates in the same year that contain today, starting on the first of the quarter's first month |
| Calendar.DaysBeforeYearClosedForm | app/src/casper/services.py:287-288 | The days before a year, counted year by year, equal the closed form p*365 + p//4 - p//100 + p//400 (p the year less one) that date.toordinal uses |
| Calendar.ParseFormat | app/src/casper/services.py:237-276 | Writing a date as `%Y.%m.%d` and reading it back gives the date |
| Calendar.FormatParse | app/src/casper/services.py:307 | Only a date's written form reads back as that date, so day keys and dates correspond one to one |
| Calendar.PrevDay | app/src/casper/services.py:237 | The day before is a valid date one ordinal earlier |
| Eligibility.InsertRanked | app/src/casper/services.py:348 | Inserting a record just before the first entry it ranks above keeps the list ranked |
| Eligibility.InsertIntoRanking | app/src/casper/services.py:348 | Inserting record i at its place keeps the order ranked and free of repeats, over current-week records up to i, and adds exactly i |
| Eligibility.MarkEligibleFlags | app/src/casper/services.py:351-353 | The record at place p of the ranking is made eligible iff p < 100; records outside the ranking are untouched; only the eligibility flag changes |
| Eligibility.EligibleCount | app/src/casper/services.py:348-353 | Exactly min(100, n) of the week's n records are eligible after the marking |
| Eligibility.EligibleAreBest | app/src/casper/services.py:348-353 | No week record left ineligible ranks above a record made eligible |
| Eligibility.RankingCoversWeek | app/src/casper/services.py:348 | The ranking has as many entries as the week has records |
| Services.FindIp | app/src/casper/services.py:185 | Node.objects.get(ip=ip) finds the row with that address, and no row exactly when the address is unregistered |
| Services.PeerAddressHosts | app/src/casper/services.py:193-195 | The peer loop collects the host part of each advertised address, in order |
| Services.TallyValidators | app/src/casper/services.py:127-132 | The validator loop computes the sum of the weights and the set of lower-cased validator keys |
| Services.DayUpdateOf | app/src/casper/services.py:249-273 | The per-node day body gives a score in [0, 100] that is 100 iff the node was active in all max_scores intervals; a longevity of 0 after a score under 90 on a full day, else yesterday's longevity plus the score; a stake flag raised iff a row of the day reached 6%; and leaves eligibility alone |
| Services.DayStep | app/src/casper/services.py:264-281 | A turn of the day loop computes from the table as earlier turns left it the same update the stage computes from the starting table, since no turn writes yesterday's record |
| Services.TallyWeek | app/src/casper/services.py:303-324 | The loop over a node's day records computes the week tally of the specification |
| Services.WeekUpdateOf | app/src/casper/services.py:303-330 | The per-node week body gives the specified score, longevity and stake flag |
| Services.TallyQuarter | app/src/casper/services.py:376-395 | The loop over a node's week records, in the order given, computes the quarter tally of the specification |
| Services.KeyedNodeHasRows | app/src/casper/services.py:213-243 | Once the snapshot is taken, a node with a key makes max_scores positive, so the day stage neither fails on an empty max() nor divides by zero |
| Services.CycleRecords | app/src/casper/services.py:407-420 | After one run of main every node with a key has a day record, a week record and a quarter record for the current periods |
| Services.Database.Save | app/src/casper/services.py:276-280 | Saving one stage's assignments is the table upsert, and keeps the table invariant |
| Services.Database.RegisterAll | app/src/casper/services.py:77-80 | Registering addresses gives the registry AddPeers specifies; scores and records are unchanged |
| Services.Database.SaveStatus | app/src/casper/services.py:185-189 | Storing one response rewrites exactly the node with that address as ApplyResponse specifies |
| Services.Database.HandleResponse | app/src/casper/services.py:171-195 | One response rewrites the node with that address as ApplyResponse specifies and yields the hosts of the peers it advertises |
| Services.Database.ApplyStatuses | app/src/casper/services.py:171-196 | The response loop leaves the registry ApplyResponses specifies and returns the advertised peer hosts |
| Services.Database.UpdateAuctionInfo | app/src/casper/services.py:113-144 | The auction refresh leaves the registry AuctionUpdate specifies for the reply the fetch settles on |
| Services.Database.ApplyBidToNodes | app/src/casper/services.py:138-144 | The inner bid loop applies the bid to every node with the bid's key and no other |
| Services.Database.RecordIntervals | app/src/casper/services.py:211-230 | The snapshot appends exactly the rows IntervalRows specifies and changes nothing else |
| Services.Database.MonitoringScore | app/src/casper/services.py:147-230 | monitoring_score leaves the polled and auction-updated registry and appends one interval row per keyed node; records are unchanged |
| Services.Database.CalculateDayScoring | app/src/casper/services.py:233-281 | The day stage leaves the table DayStage specifies; nodes and interval rows are unchanged |
| Services.Database.ScoreDay | app/src/casper/services.py:246-281 | One node of the day loop: a node with a key gets the day update computed from the table as it stands, saved under the day's key; a node without one changes nothing; the table after i+1 turns is the stage's first i+1 upserts |
| Services.Database.CalculateWeekScoring | app/src/casper/services.py:295-337 | The week stage leaves the table WeekStage specifies |
| Services.RankWeek | app/src/casper/services.py:348 | The order built lists every current week record exactly once, best first |
| Services.Database.MarkRanked | app/src/casper/services.py:351-353 | The marking loop leaves the table MarkEligible specifies |
| Services.Database.DetermineEligibleRewards | app/src/casper/services.py:340-353 | determine_eligible_rewards marks the records of a ranking of the current week, keeping the table invariant |
| Services.Database.CalculateQuarterRewards | app/src/casper/services.py:356-404 | The quarter stage, reading each keyed node's week records best first as the query returns them, leaves the table QuarterStage specifies |
| Services.Database.ScoringStages | app/src/casper/services.py:414-420 | The day, week, eligibility and quarter stages in order leave the table their composition specifies, with a ranking of the current week |
| Services.Database.RunCycle | app/src/casper/services.py:407-420 | main runs monitoring, the day, week, eligibility and quarter stages in order, and the tables end as their composition specifies |

## Left out

- HTTP and scraping (`get_status`, `get_cnm_ips`, the aiohttp sessions), the sleeps between attempts, timeouts and logging. The parsed responses, the bootstrap listing and the attempt outcomes are parameters. `GetAuctionInfo` makes a step per attempt without waiting.
- The asyncio fan-out. Responses are processed as a given sequence of (address, result) pairs. The set `new_peers` and the set of bootstrap addresses are sequences in a given order. Duplicate hosts are harmless, because an address is added only once.
- The Django ORM. Tables are sequences, and a node's primary key is its position. `get_or_create` plus `save` is an upsert on (node, type, key). The stages visit nodes in registry order rather than in `Node.Meta.ordering`; each node's records are computed from that node's own rows and records, so the node order changes no result. The quarter stage reads a node's week records in `Scoring.Meta.ordering` (`Models.ByRank`), because on a tie of start dates that order decides which longevity the strict later-start test keeps. Records equal in both score and longevity are read in table order, where the database leaves the order open; `Rollups.BestStartingOnUnique` shows that this changes no result. The week stage reads a node's day records in table order; their keys are distinct dates, so no two tie on the date.
- Floating point. Scores, longevities and shares are exact reals, and the stake sums are unbounded integers. Python's 64-bit float rounding and Django's BigIntegerField bounds are not modelled.
- The clock and time zones. `now` is one parameter shared by all stages of a cycle; the source reads the clock again in each stage. Dates are naive proleptic Gregorian dates, and a stage that formats a date requires a year of at most 9999. Keys are written with the year zero-padded to four digits; glibc's strftime writes years below 1000 without padding, so for such years the model's keys differ from the source's.
- `Calendar.ParseDate` accepts only the zero-padded `YYYY.MM.DD` form that the pipeline writes. strptime also accepts unpadded months and days, but no record the pipeline writes has them.
- `Text.Strip` and `Text.Lower` treat ASCII only. Python strips all Unicode whitespace and lower-cases all Unicode letters.
- The public_key column of `Scoring` (app/src/core/models.py:64). services.py reads and writes scoring records by `node=`, which the model file does not declare; the model keys records by node as services.py does.
- `Services.Database.RankWeek` stands for the database's `order_by('-score', '-longevity')`. It breaks ties by table order, where the database leaves them unspecified. The eligibility lemmas therefore hold for every ranking consistent with the ordering, not just this one.
- Crash cases become preconditions:
  - `max()` over an empty registry, or over no node with a key;
  - a zero `max_scores`;
  - a zero network weight when a validator node has a bid;
  - a stored week key that does not parse;
  - an advertised peer entry without an `address` field (services.py lines 193-194, outside any `try`), which aborts the cycle. `Status.peers` holds only the address strings, so the model cannot represent such an entry.
  The model does not describe what happens after the source raises.
- Only `era_validators[0]` is read, as in the source. The shape checks of the auction JSON (missing `result`, `bids` and similar keys, which raise in the source) are not modelled: a reply is either empty or well formed.
- The timestamp of interval rows. `Score.timestamp` is declared with `auto_now_add` (app/src/core/models.py:40), so Django stamps each row with its own insertion time and ignores the `timestamp_now` passed in. The model stamps every row of a snapshot with `now`, so it does not capture a snapshot that straddles midnight and lands on two days. The other defaults of `Score` are never used, because the pipeline sets those fields. `Score.Meta.ordering` affects no stage's result.
- The API views, admin, serializers, URLs, migrations and the Celery task are not part of this model.
