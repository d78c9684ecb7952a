# Election results store: ranking, ballot figures, slugs and candidate names

This project models the behaviour of the results store's model classes in
`models.rb`.

**Records.** Two store records carry behaviour: a Poll and a Candidacy.
- A Poll is the result of one district in one election.
- A Candidacy is one candidate's run in one district in one election.

Both are Dafny datatypes. A column the store may leave NULL is an `Option`.

**Ranking.** `Poll#set_positions` works on the candidacy table. Here that table is an `array<Candidacy>`, updated in place: saving a row writes its array slot.
- If any candidacy of the poll has no votes, the method answers `false` and changes nothing.
- Otherwise it walks the poll's candidacies in votes-descending order with a position counter from 1. It writes each row's position, and seats 1 exactly while the position is within the poll's seats.

`Election#set_positions` runs that method for every poll of the election.

The store decides the order among equal vote counts. No rule in the source fixes it, so the model does not fix it either:
- the order is a parameter, constrained by `RankingSpec.IsVotesDescOrder` (every row of the poll exactly once, votes never increasing);
- the query method `Ranking.SelectByVotesDesc` promises only that.

**Ballot figures.** `total_rejected_ballots` and `valid_ballot_papers` follow Ruby's arithmetic.
- A missing count is `nil`.
- `nil + Integer` raises.
- 0 is truthy.

The outcome is therefore `Int(n)`, `Nil` or `Raises`.

**Strings.** `District.slugify` and the three display strings of a Candidate are functions on `seq<char>`.
- Ruby's `\w` and `\s` are ASCII-only; they are `Text.IsWordChar` and `Text.IsSpace`.
- `split(' ')` splits on the same whitespace as `\s`.
- `[0]` of the empty result of splitting blank forenames is `nil`, and the `+` that follows raises. This is modelled as `None`.

Modules:
- `Records`: the Poll and Candidacy records, `Option`, and poll membership.
- `Text`: character classes, leading-whitespace removal, and `Integer#to_s` with its inverse.
- `Ballots`: `total_rejected_ballots` and `valid_ballot_papers`.
- `Slugs`: `District.slugify`.
- `Candidates`: `name`, `short_name` and `url`.
- `RankingSpec`: what ranking a poll means, as functions on the sequence of rows, with the lemmas about it.
- `Ranking`: the methods over the array, each proved against `RankingSpec`.

### Behaviour worth noting
- **Rejected-ballot totals.** `total_rejected_ballots` tests only `rejected_no_official_mark` for nil.
  - Once that count is present, a nil among the other three makes the addition raise; it does not give nil.
  - If the total is present and `ballot_papers_issued` is nil, the subtraction in `valid_ballot_papers` raises.
- **Re-running the ranking.** Ranking again with unchanged votes reproduces the same positions only if the store returns tied rows in the same order:
  - `RankAgainAlongSameOrder` proves that ranking again along the same order changes nothing;
  - `TiesAreNotBroken` shows that two tied rows admit both orders, which give them different positions.

## Model

| member | source | states |
|---|---|---|
| Ballots.TotalRejectedBallots | models.rb:20-29 | nil exactly when the no-official-mark count is nil; an Integer exactly when all four counts are present; raises exactly when the first count is present and another is nil |
| Ballots.ValidBallotPapers | models.rb:31-33 | nil exactly when the total is nil; an Integer exactly when all counts and the issued count are present, and then valid + total rejected = issued |
| Ballots.TotalIsSumOfReasons | models.rb:20-33 | with all four counts present, the total is their sum and valid papers are issued minus that sum |
| Ballots.ValidNeverExceedsIssued | models.rb:31-33 | with non-negative counts, the total is non-negative and valid papers never exceed those issued |
| Ballots.NoRejectionsKeepsIssued | models.rb:31-33 | a total of 0 counts as present (truthy), so every issued paper is valid |
| Slugs.Slugify | models.rb:161-163 | the slug is never longer than the name |
| Slugs.SlugifyChars | models.rb:161-163 | a slug holds only a-z, 0-9, `_` and `-`, and no whitespace |
| Slugs.SlugifyIdempotent | models.rb:161-163 | slugifying a slug gives the same slug |
| Slugs.SlugifyKeepsWordChars | models.rb:161-163 | the slug's word characters are exactly the name's word characters, in order and lowercased |
| Slugs.CollapseGapThen | models.rb:162 | a run of whitespace after a word becomes exactly one hyphen, and the rest is collapsed independently |
| Slugs.CollapseGap | models.rb:162 | a run of whitespace between two words becomes exactly one hyphen |
| Slugs.SlugifyPunctuatedPair | models.rb:161-163 | two capitalised words separated by whitespace around one punctuation character slugify to the lowered words joined by one hyphen |
| Slugs.SlugifyStIves | models.rb:161-163 | "St. Ives" gives "st-ives" |
| Slugs.SlugifyAshford | models.rb:161-163 | "Ashford & District" gives "ashford-district" |
| Slugs.SlugifyKeepsHyphenRuns | models.rb:161-163 | hyphens of the name are kept and not merged: "a - b" gives "a---b" |
| Candidates.TakeWord | models.rb:74 | the first field is a prefix of its input, holds no whitespace, and ends at the end of the input or at whitespace |
| Candidates.FirstWord | models.rb:74 | `split(' ')[0]` is nil exactly when the forenames are blank; otherwise it is a non-empty, whitespace-free word no longer than the forenames |
| Candidates.FirstWordIsFirstField | models.rb:74 | the word `split(' ')[0]` returns follows only whitespace and ends at the end of the forenames or at whitespace: it is their first field |
| Candidates.Name | models.rb:77-79 | the forenames and the surname can be read back from either side of one separating space |
| Candidates.ShortName | models.rb:73-75 | the short name exists exactly when the forenames are not blank (otherwise `nil + ' '` raises); it is a non-empty whitespace-free word, a space and the surname |
| Candidates.ShortNameShortensName | models.rb:73-79 | the word before the surname in the short name is the first field of the forenames, so the short name is never longer than the name |
| Candidates.ShortNameOfSingleForename | models.rb:73-79 | with a single forename, the short name equals the name |
| Candidates.Url | models.rb:81-83 | the URL starts with "/candidates/" and the rest is all digits exactly when the id is not negative |
| Candidates.UrlRoundTrip | models.rb:81-83 | the id can be read back from the candidate's URL |
| Candidates.UrlsAreDistinct | models.rb:81-83 | different ids give different URLs |
| Text.NatToString | models.rb:82 | `to_s` of a non-negative Integer is a non-empty run of decimal digits with no leading zero |
| Text.IntToString | models.rb:82 | `to_s` of an Integer is non-empty, starts with a minus sign exactly when the Integer is negative, and is otherwise decimal digits with no leading zero |
| Text.IntToStringRoundTrip | models.rb:82 | parsing the decimal form of any Integer gives that Integer back |
| Ranking.CountPending | models.rb:43 | counts exactly the rows of the poll whose votes are nil |
| RankingSpec.PendingIffResultsUnknown | models.rb:42-43 | the pending count is positive exactly when some candidacy of the poll has no votes |
| Ranking.FindInsertionPoint | models.rb:46 | finds the first place in the order whose row has fewer votes than the new row; every earlier place has at least as many |
| Ranking.SelectByVotesDesc | models.rb:45-46 | returns every row of the poll exactly once, with votes never increasing; ties are left in any order |
| RankingSpec.IsVotesDescOrder | models.rb:42-46 | an order the votes-descending query can return indexes only rows of the table, and exists only when every candidacy of the poll has votes |
| RankingSpec.SkipKeepsOrder | models.rb:46 | a row outside the poll leaves the votes-descending order of the earlier rows valid |
| RankingSpec.InsertKeepsOrder | models.rb:46 | inserting a row of the poll after the rows with at least its votes keeps the order votes-descending and complete |
| RankingSpec.OrderLengthIsPollSize | models.rb:46 | a votes-descending order is as long as the poll has candidacies |
| Ranking.SetPositions | models.rb:39-58 | answers `false` exactly when some candidacy of the poll lacks votes, and then changes nothing; otherwise returns a votes-descending order and leaves the table ranked along it |
| RankingSpec.Rank | models.rb:50-56 | ranking along an order keeps every row's votes and poll key, and a row it changes gets a position between 1 and the length of the order |
| RankingSpec.RankAt | models.rb:50-56 | the row at place k of the order gets position k+1, and seats 1 if k+1 <= seats, else 0; rows off the order are unchanged |
| RankingSpec.RankChangesOnlyPositionsAndSeats | models.rb:50-56 | ranking changes only rows of the poll, and only their position and seats fields |
| RankingSpec.RankedPositionsArePermutation | models.rb:50-56 | after ranking, the poll's positions are exactly 1..n, each used once, n being the number of candidacies |
| RankingSpec.RankedVotesFollowPositions | models.rb:46-56 | after ranking, a better position never has fewer votes |
| RankingSpec.RankedSeatsFollowPositions | models.rb:52 | after ranking, seats = 1 exactly when position <= the poll's seats, otherwise 0 |
| RankingSpec.RankedWinnerCount | models.rb:52 | after ranking, the number of winners is min(seats, n), or none when seats <= 0 |
| RankingSpec.RankAgainAlongSameOrder | models.rb:39-58 | the same order is still valid after ranking, and ranking along it again changes nothing |
| RankingSpec.TiesAreNotBroken | models.rb:46 | two tied candidacies admit both orders, and their positions differ between the two |
| RankingSpec.ThreeCandidacyExample | models.rb:39-58 | votes 500, 300, 1200 in a two-seat poll force positions 2, 3, 1 and seats 1, 0, 1 |
| RankingSpec.OrdersDependOnVotesOnly | models.rb:144-146 | whether a poll can be ranked, and along which orders, depends only on keys and votes, which ranking other polls does not touch |
| RankingSpec.RankDependsOnPollRowsOnly | models.rb:144-146 | ranking a poll gives its rows the same values whatever other polls' rows hold |
| RankingSpec.RankNextPoll | models.rb:145 | ranking the next poll, or finding it pending, extends the election's ranked state by that poll |
| Ranking.SetElectionPositions | models.rb:144-146 | after the loop, each poll with known results has its rows ranked along a votes-descending order, every other row keeps its value, and votes are untouched |
| RankingSpec.ElectionPollsAreRanked | models.rb:144-146 | after the election is ranked, every poll with known results has positions 1..n, votes following positions, seats following positions and min(seats, n) winners |
| RankingSpec.RankedStateOfPollRows | models.rb:144-146 | the ranked-state properties of a poll depend only on that poll's rows |

## Left out
- `turnout_percent` (models.rb:16-18) is floating-point division and is not modelled.
- `successful_candidacies` (models.rb:35-37) is a store query and is not modelled. It filters on the `@election` and `@district` associations, which are nil until loaded, and passes `@seats` as a limit. Only with both loaded and seats >= 0, after ranking, would it return the winners that `RankingSpec.RankedWinnerCount` counts.
- `Election.past` and `Election.future` depend on the clock and are not modelled.
- `Election#electorate` and `Election#ballot_papers_issued` are SQL `SUM` aggregates and are not modelled.
- The `puts` message for a poll without candidacies is console output. An empty poll is still ranked to the empty order, and its rows (none) are unchanged.
- Saving can fail in the store, and other writers can interleave. The model treats each save as an array write that always succeeds, with no concurrency.
- The DataMapper setup, the property declarations and the `DeletedCandidate`, `Body` and `Party` classes declare schema only.
- Ranking.SelectByVotesDesc: requires the poll's results to be known. The source reaches this query only after the pending check, and the store's ordering of NULL votes is not modelled.
- Ranking.SetElectionPositions: requires the polls to have distinct keys, as rows of a table keyed by district and election do. The orders it reports are ghost, and the ignored return value of each poll's ranking is not recorded.
- Candidates.Url: a candidate id is an `int`. The `Serial` id of an unsaved candidate is nil, and `url` then gives "/candidates/"; that case is not modelled.
