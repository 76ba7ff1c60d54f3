# Kansas City crime stream — verified model

The repository streams Kansas City crime reports through Kafka. A producer
reads dataset rows, turns the `Location` text `"POINT (lon lat)"` into a
latitude and a longitude, and publishes one flat JSON message per row. A
consumer decodes each message and sorts the offense into one of eleven
categories by an ordered keyword table. It then counts the category in an
insertion-ordered dictionary and records the incident's point for a map when
both coordinates are truthy (set and non-zero).

This project models those three pieces of logic and the way they fit together:

- `Categorizer` (categorizer.dfy): `categorize_crime`. It holds the eleven
  categories as a datatype, with their labels, and the ten rules as an ordered
  table of keyword lists. Matching is done on the ASCII upper-cased text and
  the first matching rule wins.
- `Aggregator` (aggregator.dfy): the state update of `process_message` and
  the reset in `main`.
  - The class `CrimeAggregator` holds the counts, their key order and the
    located incidents.
  - A ghost history of ingested categories sits beside them. The invariant
    `Valid` ties the state to that history.
  - The message as `json.loads` delivers it is the datatype `Payload`. It
    covers a decoding failure, a missing, null or non-text offense, and null
    or zero coordinates.
- `Producer` (producer.dfy): the per-row body of `generate_messages`.
  - The location parse, with `float()` passed in as a partial function
    `parseNum`.
  - The message built from a row, and the row loop itself.
- `Pipeline` (pipeline.dfy): the two programs joined up.
  - A produced message is what the consumer decodes (`Transmit`).
  - The consumer's inner loop over a polled batch (`ConsumeBatch`).
  - End-to-end facts about a consumer that receives the producer's messages
    in order, for example that the counts then add up to the number of
    messages received.
- `PyStr` (pystr.dfy): the Python string operations used.
  - `upper` (ASCII only), `in` on strings, `replace(pat, "")`.
  - `strip()` and `split()` over Python's whitespace characters.
- `Wrappers` (wrappers.dfy): `Option`.

Every result is one of the eleven categories by construction: `Categorize`
returns a `Category`, and `Label` is injective (`LabelInjective`).

## Model

| member | source | states |
|---|---|---|
| Categorizer.Categorize | consumers/crime_consumer_webb.py:82-83 | a missing (`None`) or empty offense is "Other", whatever the rules say |
| Categorizer.Label | consumers/crime_consumer_webb.py:88-129 | the label string returned for each category, one of the source's eleven; `LabelInjective` proves them distinct |
| Categorizer.Matches | consumers/crime_consumer_webb.py:88-124 | `any(word in offense_upper for word in keywords)` for one rule; `FirstMatchWins` and `MatchedTextNonEmpty` state what a match decides |
| Categorizer.LabelInjective | consumers/crime_consumer_webb.py:88-129 | the eleven results are eleven distinct labels |
| Categorizer.FirstMatchIndex | consumers/crime_consumer_webb.py:88-125 | the index found is that of a matching rule, and no earlier rule matches; the table's length means that no rule matches |
| Categorizer.RuleLabels | consumers/crime_consumer_webb.py:88-125 | no rule yields "Other", and no two rules yield the same category |
| Categorizer.FirstMatchWins | consumers/crime_consumer_webb.py:85-125 | an offense gets rule k's category if and only if rule k matches its upper-cased text and no earlier rule does |
| Categorizer.OtherIffNoKeyword | consumers/crime_consumer_webb.py:82-129 | an offense text, empty or not, is "Other" if and only if its upper-cased text contains no keyword of any rule |
| Categorizer.CaseInsensitive | consumers/crime_consumer_webb.py:85 | an offense and its upper-cased form get the same category |
| Categorizer.ViolentKeywordWins | consumers/crime_consumer_webb.py:88-89 | a text containing any violent keyword is "Violent Crime", whatever else it contains |
| Categorizer.AssaultIsViolent | consumers/crime_consumer_webb.py:88-89 | a text whose upper-cased form contains "ASSAULT" is "Violent Crime" |
| Categorizer.AssaultAnyCase | consumers/crime_consumer_webb.py:85-89 | a text containing the upper-case word "ASSAULT" is "Violent Crime" |
| Categorizer.TheftKeywordWins | consumers/crime_consumer_webb.py:92-93 | a text containing "THEFT" and no violent keyword is "Theft" |
| Categorizer.IdentityTheftNeverFraud | consumers/crime_consumer_webb.py:120 | a text containing "IDENTITY THEFT" is "Violent Crime" or "Theft", never "Fraud" |
| Categorizer.MatchedTextNonEmpty | consumers/crime_consumer_webb.py:82-88 | a text some rule matches is non-empty, so the empty-offense shortcut never hides a rule |
| Categorizer.TheftRuleWins | consumers/crime_consumer_webb.py:91-93 | a text the theft rule matches, and no violent keyword, is "Theft" whatever later rules match |
| Categorizer.TheftBeforeVehicle | consumers/crime_consumer_webb.py:91-97 | a text matched by both the theft rule and the vehicle rule, and by no violent keyword, is "Theft" and not "Vehicle Crime" |
| Categorizer.DomesticViolenceAssault | consumers/crime_consumer_webb.py:124 | "DOMESTIC VIOLENCE ASSAULT" is "Violent Crime": the violent rule is reached first |
| Categorizer.UnknownMissesEveryRule | consumers/crime_consumer_webb.py:88-125 | none of the ten rules matches the text "UNKNOWN" |
| Categorizer.UnknownIsOther | consumers/crime_consumer_webb.py:266-267 | "Unknown", the default for a missing offense, matches no rule and is "Other" |
| Aggregator.OffenseCategory | consumers/crime_consumer_webb.py:266-267 | exactly a truthy non-text offense raises; a missing, null, empty or falsy offense is "Other"; a text offense gets the category of its text |
| Aggregator.Admitted | consumers/crime_consumer_webb.py:262-267 | a message is counted unless it is not a decodable JSON object or its offense is truthy non-text |
| Aggregator.Ingest | consumers/crime_consumer_webb.py:262-270 | a message adds at most one category to the history, and none exactly when processing raises before the count |
| Aggregator.Truthy | consumers/crime_consumer_webb.py:273 | Python truthiness of a coordinate: not null and not 0.0; `ProcessMessage` appends a location exactly when both coordinates pass it |
| Aggregator.Bump | consumers/crime_consumer_webb.py:270 | `+= 1` on a defaultdict: the key is present afterwards, its count grows by one, and every other count is unchanged |
| Aggregator.FirstSeenOrder | consumers/crime_consumer_webb.py:137 | the key order lists exactly the categories seen, each once |
| Aggregator.TallyCounts | consumers/crime_consumer_webb.py:270 | each count is the number of occurrences of its category, and only seen categories have a key |
| Aggregator.TallyTotal | consumers/crime_consumer_webb.py:270 | the counts add up to the number of messages counted |
| Aggregator.TotalIncrement | consumers/crime_consumer_webb.py:270 | incrementing one key adds one to the sum of the counts |
| Aggregator.HistoryStep | consumers/crime_consumer_webb.py:270 | one more message appends its category to the key order only if it is new, bumps its count, and adds one to the total |
| Aggregator.SummaryFacts | consumers/crime_consumer_webb.py:137-138 | in a valid state the key order holds each counted category once, the counts are the occurrence numbers and add up to the messages counted, and there are no more located incidents than that |
| Aggregator.SummarisesStep | consumers/crime_consumer_webb.py:270-278 | counting one more category, with at most one new located incident of that category with non-zero coordinates, keeps the state valid |
| Aggregator.CrimeAggregator.constructor | consumers/crime_consumer_webb.py:137-138 | the state starts empty and valid |
| Aggregator.CrimeAggregator.Reset | consumers/crime_consumer_webb.py:307-310 | counts, key order and locations are emptied, and the state is valid |
| Aggregator.CrimeAggregator.ProcessMessage | consumers/crime_consumer_webb.py:262-289 | a message that fails before the count changes nothing. Otherwise: its category's count grows by one; every other count is unchanged; the category is appended to the key order only if it is new; one location with the message's coordinates and category is appended exactly when both coordinates are truthy. The state stays valid. |
| Producer.Column | producers/crime_producer_webb.py:100-117 | `row.get(name, "")`: the cell text, or "" for a missing column; `MissingColumnsAreEmpty` states the default for every field |
| Producer.CoordinateText | producers/crime_producer_webb.py:104 | the location with every "POINT (" and then every ")" deleted, then stripped; `PointTokens` states what it leaves of a well-formed point |
| Producer.ParseLocation | producers/crime_producer_webb.py:98-109 | a set latitude implies a set longitude; a location without "POINT" has neither coordinate |
| Producer.RowMessage | producers/crime_producer_webb.py:96-120 | the step-by-step assignment of the coordinates and of the seven fields builds the row's message |
| Producer.ToMessage | producers/crime_producer_webb.py:98-120 | the seven-field message of a row: five column texts and the coordinates of `ParseLocation`; `RowMessage` is proved equal to it and `GenerateMessages` yields it per row |
| Producer.GenerateMessages | producers/crime_producer_webb.py:95-122 | one message per row, in row order, each the message of its row |
| Producer.ProducedSnoc | producers/crime_producer_webb.py:95-122 | the messages of some rows followed by the message of one more row are the messages of the longer row list |
| Producer.MissingColumnsAreEmpty | producers/crime_producer_webb.py:100-120 | a missing text column gives "" in the message, and a missing location gives no coordinates |
| Producer.PointTokens | producers/crime_producer_webb.py:101-105 | for "POINT (a b)" with plain tokens, the containment check passes and the deletions, strip and split give exactly the tokens a and b |
| Producer.PointParses | producers/crime_producer_webb.py:104-107 | when both tokens parse, the first is the longitude and the second the latitude |
| Producer.PointLatitudeFails | producers/crime_producer_webb.py:106-109 | when only the second token fails to parse, the longitude is kept and the latitude stays unset |
| Producer.PointLongitudeFails | producers/crime_producer_webb.py:106-109 | when the first token fails to parse, both coordinates stay unset |
| Producer.WrongTokenCount | producers/crime_producer_webb.py:104-109 | anything but exactly two tokens leaves both coordinates unset |
| Producer.LongitudeIsFirstToken | producers/crime_producer_webb.py:101-107 | a set longitude means the location contains "POINT", has exactly two tokens, and the coordinates are the parses of the first and second token |
| Producer.KansasCityPoint | producers/crime_producer_webb.py:97-107 | a point in the documented `POINT (lon lat)` form, "POINT (-94.5785 39.0997)", parses to latitude 39.0997 and longitude -94.5785 when `float` reads its two tokens as those numbers |
| Producer.AssaultRowMessage | producers/crime_producer_webb.py:98-120 | an aggravated assault row with that location gives a message with its offense and both coordinates |
| PyStr.ToUpper | consumers/crime_consumer_webb.py:85 | same length; lower-case ASCII letters are shifted to upper case; every other character is kept |
| PyStr.ToUpperIdempotent | consumers/crime_consumer_webb.py:85 | upper-casing twice is upper-casing once |
| PyStr.Contains | consumers/crime_consumer_webb.py:88-124 | `sub in s`: `sub` occurs at some position of `s`; `ContainsLength`, `ContainsTransitive` and `ContainsUpper` state its properties |
| PyStr.ContainsUpper | consumers/crime_consumer_webb.py:85-88 | a word without lower-case letters that occurs in a text also occurs in its upper-cased form |
| PyStr.ContainsLength | consumers/crime_consumer_webb.py:88 | a text is at least as long as any string it contains |
| PyStr.ContainsTransitive | consumers/crime_consumer_webb.py:120 | a text containing a string contains every substring of it |
| PyStr.RemoveAll | producers/crime_producer_webb.py:104 | `s.replace(pat, "")`, one left-to-right pass deleting every occurrence; its result is never longer than `s`, and `RemoveAllChangesIff` states when it changes `s` |
| PyStr.RemoveAllChangesIff | producers/crime_producer_webb.py:104 | deleting every occurrence of a pattern leaves the text unchanged if and only if the pattern does not occur in it, and otherwise shortens it |
| PyStr.LStrip | producers/crime_producer_webb.py:104 | `lstrip()`: a suffix of the text that is empty or starts with non-whitespace |
| PyStr.RStrip | producers/crime_producer_webb.py:104 | `rstrip()`: a prefix of the text that is empty or ends with non-whitespace |
| PyStr.Strip | producers/crime_producer_webb.py:104 | `strip()`, as `rstrip()` after `lstrip()`; `LStripDropsSpaces`, `RStripDropsSpaces` and `StripTrimmed` state what it removes and keeps |
| PyStr.LStripDropsSpaces | producers/crime_producer_webb.py:104 | `lstrip` removes only whitespace, and what it keeps starts with non-whitespace |
| PyStr.RStripDropsSpaces | producers/crime_producer_webb.py:104 | `rstrip` removes only whitespace, and what it keeps ends with non-whitespace |
| PyStr.StripTrimmed | producers/crime_producer_webb.py:104 | a text that starts and ends with non-whitespace is unchanged by `strip` |
| PyStr.Split | producers/crime_producer_webb.py:105 | `split()` with no separator: the whitespace-separated tokens of the text, in order; `SplitTokensPlain`, `SplitConcat` and `SplitPair` state its properties |
| PyStr.SplitTokensPlain | producers/crime_producer_webb.py:105 | `split()` gives non-empty tokens without whitespace |
| PyStr.SplitConcat | producers/crime_producer_webb.py:105 | the tokens of `split()`, joined, are the text with its whitespace removed |
| PyStr.SplitPair | producers/crime_producer_webb.py:105 | two plain words separated by one whitespace character split into exactly those two words |
| Pipeline.Transmit | producers/crime_producer_webb.py:112-159 | `json.dumps` of a produced message followed by `json.loads`: a decoded object with a text offense and the message's two coordinates, null where unset; `MessageIngest` and `MessagePlottedIff` state what the consumer then does with it |
| Pipeline.ConsumeBatch | consumers/crime_consumer_webb.py:327-331 | processing a polled batch in order adds exactly the batch's accepted categories to the history, and the state stays valid |
| Pipeline.AcceptedSnoc | consumers/crime_consumer_webb.py:327-331 | one more message in a batch adds what that message adds |
| Pipeline.BatchCounts | consumers/crime_consumer_webb.py:270-331 | after a batch, each count has grown by the number of the batch's accepted messages of that category |
| Pipeline.Published | producers/crime_producer_webb.py:159 | one payload per message, in order, each the decoded JSON of its message |
| Pipeline.MessageIngest | consumers/crime_consumer_webb.py:262-270 | a produced message is always counted, under the category of its offense |
| Pipeline.EveryMessageCounted | consumers/crime_consumer_webb.py:262-270 | the history after the producer's messages holds one entry per message, each the category of that message's offense |
| Pipeline.CountsAddUpToMessages | consumers/crime_consumer_webb.py:226-227 | the counts shown on the bar chart add up to the number of messages, when the consumer receives exactly the published messages from an empty state |
| Pipeline.MessagePlottedIff | consumers/crime_consumer_webb.py:273 | a produced message is located if and only if both its coordinates are set and non-zero |
| Pipeline.AssaultMessageIsPlotted | consumers/crime_consumer_webb.py:267-274 | an aggravated assault message at a Kansas City point is counted as violent and located |

## Left out

- Kafka: creating the producer and the consumer, topics, `poll`, `send` and `close`. These are network clients. A polled batch enters the model as a sequence of payloads, and the consumer's outer `while True` loop and its `KeyboardInterrupt` handling are left out.
- JSON: `json.dumps` and `json.loads` are not modelled as text codecs. The consumer receives the decoded value, a `Payload`, and `Transmit` says what a produced message decodes to.
- `float()`: the parameter `parseNum` stands for it, returning `None` where it raises. NaN and the infinities have no `real`, so they are not covered.
- `str.upper`: only ASCII letters are upper-cased. Python's full Unicode mapping, including changes of length, is not modelled.
- Non-number coordinates in a message: any truthy JSON value under "latitude" or "longitude" (`true`, a non-empty string, array or object) would be recorded, and a falsy one (`false`, an empty string, array or object) would not. The model's coordinates are numbers or null.
- `update_chart` and all matplotlib and contextily calls: rendering only. The model keeps what the chart reads: counts in key order and the located incidents.
- The producer's file handling, `csv.DictReader` and the `sys.exit` codes. Rows enter the model as maps from column name to text, so a short row's `None` cells are not modelled. `time.sleep` between messages and the environment getters are not modelled, nor is logging, including the address in the consumer's log line.
- Delivery: the end-to-end lemmas in `Pipeline` take the consumer's input to be exactly the published messages, each once and in producer order, from an empty state. Kafka does not promise this: a consumer group skips messages whose offsets an earlier run committed (the reset at consumer start clears the counts, not the offsets), a consumer started after the producer may miss messages, and with several partitions `message_batch.items()` interleaves them per partition, so the order and the first-seen key order need not be the producer's.
- The `crime_types` list: it is only ever cleared and never read.
- Pipeline.ConsumeBatch: states the new history and validity, not each field. The per-field effect is `ProcessMessage`'s contract applied one message at a time.
