# Leaderboard decoder of the quiz app

The quiz app keeps its leaderboard in the platform key-value store under the
key `leaderboard_data`. The value is one flat string:
`name,score|name,score|...`. When the leaderboard screen opens, the app
decodes this string with `loadLeaderboard`, sorts the entries by descending
score and lists them.

The decoder does the following:

- An absent or empty value gives no entries.
- Otherwise the string is split on `|`, and each segment is split on `,`.
- A segment becomes an entry only when it has exactly two fields and the
  second field parses as a 32-bit `Int`.
- Every other segment is dropped without an error.

This project models that decoder and the sort that follows it, and proves
properties of both.

| file | module | what it holds |
|---|---|---|
| `options.dfy` | `Options` | `Option`, the model of Kotlin's nullable types and of the Elvis operator `?:` |
| `not_null.dfy` | `NotNull` | `filterNotNull`, the second half of `mapNotNull`, and the positions its outputs come from |
| `kotlin_text.dfy` | `KotlinText` | `String.split` with a one-character delimiter, its inverse `Join`, `String.toIntOrNull` and `Int.toString` |
| `leaderboard.dfy` | `Leaderboard` | the delimiters, the entry record, `loadLeaderboard`, a canonical writer of the format, the round trip, and the format's limits |
| `leaderboard_sort.dfy` | `LeaderboardSort` | `sortedByDescending { it.score }` as a stable insertion sort, and proofs that it is the only stable descending sort |

Kotlin's standard library is modelled as follows:

- `split` keeps empty pieces, so it always yields one piece more than there
  are delimiters.
- `toIntOrNull` takes an optional `+` or `-` and then at least one decimal
  digit. It gives `None` when the value does not fit an `Int`.
- Kotlin sorts with a stable merge sort. The model is an insertion sort.
  `SortIsUnique` shows that every list that is sorted by descending score and
  keeps the input order among equal scores is exactly this model's output.
  So the choice of algorithm does not change the result.

## Model

All source paths are in `app/src/main/java/question/skill/quiz/`; the table gives them in full.
Proof steps and the small facts about the example texts have no row of their own. These include the three parts of `OriginsStep`, `InsertBelow`, `NoneMissing`, `HeadsAgree`, `LoadSegments`, `DecodeFieldThenRecord`, `DecodeGoodEmptyBad`, `EncodeThree`, `JoinThree` and the record and text lemmas of the examples. They serve the lemmas listed here.

| member | source | states |
|---|---|---|
| KotlinText.Split | app/src/main/java/question/skill/quiz/LeaderboardScreen.kt:119 | `split` on one character always yields one piece more than there are delimiters, and no piece contains the delimiter |
| KotlinText.JoinSplit | app/src/main/java/question/skill/quiz/LeaderboardScreen.kt:119 | joining the pieces of a split with the same delimiter gives back the original string, so no character is lost or invented |
| KotlinText.SplitJoin | app/src/main/java/question/skill/quiz/LeaderboardScreen.kt:119 | splitting a join of at least one delimiter-free piece gives back exactly those pieces |
| KotlinText.SplitPieceFrom | app/src/main/java/question/skill/quiz/LeaderboardScreen.kt:121 | a character absent from the string is absent from every piece |
| KotlinText.SplitNoDelimiter | app/src/main/java/question/skill/quiz/LeaderboardScreen.kt:121 | a string without the delimiter splits into itself alone |
| KotlinText.SplitPrefix | app/src/main/java/question/skill/quiz/LeaderboardScreen.kt:121 | a delimiter-free prefix followed by the delimiter becomes the first piece, and the rest is split on its own |
| KotlinText.ToIntOrNull | app/src/main/java/question/skill/quiz/LeaderboardScreen.kt:124 | a text is read if and only if it is non-empty, what follows an optional leading `+` or `-` is at least one digit and nothing else, and the signed value fits an `Int`; the value returned is that signed value |
| KotlinText.Digits | app/src/main/java/question/skill/quiz/LeaderboardScreen.kt:124 | part of the canonical writer the parse is inverted against: the digits written for a natural number are non-empty, all decimal, and denote that number |
| KotlinText.Decimal | app/src/main/java/question/skill/quiz/LeaderboardScreen.kt:124 | the canonical writer of a score, which the parse is inverted against: the text is non-empty and is all digits, apart from a possible leading `-` |
| KotlinText.DecimalRoundTrip | app/src/main/java/question/skill/quiz/LeaderboardScreen.kt:124 | `toIntOrNull` reads back every `Int` that `toString` writes |
| KotlinText.ToIntOrNullNonCanonical | app/src/main/java/question/skill/quiz/LeaderboardScreen.kt:124 | `007` and `+7` are read as 7 and `-0` as 0; a sign alone and the empty text are rejected |
| KotlinText.ToIntOrNullRejectsOverflow | app/src/main/java/question/skill/quiz/LeaderboardScreen.kt:124 | the written form of a number outside the `Int` range is rejected (`null`) |
| NotNull.FilterNotNull | app/src/main/java/question/skill/quiz/LeaderboardScreen.kt:120 | `mapNotNull` keeps at most as many values as it is given, and only values that were present |
| NotNull.FilterNotNullAppend | app/src/main/java/question/skill/quiz/LeaderboardScreen.kt:120 | filtering a concatenation gives the concatenation of the filtered parts, so values are never reordered |
| NotNull.FilterNotNullAllPresent | app/src/main/java/question/skill/quiz/LeaderboardScreen.kt:120 | when every value is present, all of them are kept, in order |
| NotNull.Origins | app/src/main/java/question/skill/quiz/LeaderboardScreen.kt:120 | each kept value has a source position holding that value; the positions strictly increase, and every present value's position is among them |
| NotNull.OriginsStep | app/src/main/java/question/skill/quiz/LeaderboardScreen.kt:120 | the source positions of a list follow from those of its tail, with the head added when it is present |
| Leaderboard.DecodeEntry | app/src/main/java/question/skill/quiz/LeaderboardScreen.kt:121-128 | a segment that yields an entry holds exactly one `,`; the name holds no `,` and the score fits an `Int` |
| Leaderboard.DecodeAll | app/src/main/java/question/skill/quiz/LeaderboardScreen.kt:120-129 | at most one entry per segment; every name is free of `,` and every score fits an `Int` |
| Leaderboard.LoadLeaderboard | app/src/main/java/question/skill/quiz/LeaderboardScreen.kt:113-130 | an empty value gives no entries; there are at most one more entries than `\|` characters; every entry's name is free of both delimiters and its score fits an `Int` |
| Leaderboard.LoadStored | app/src/main/java/question/skill/quiz/LeaderboardScreen.kt:114-117 | an absent stored value reads as `""` and gives no entries; a present value is decoded as `loadLeaderboard` decodes it, with at most one more entry than it has `\|` characters |
| Leaderboard.LoadStoredRoundTrip | app/src/main/java/question/skill/quiz/LeaderboardScreen.kt:113-130 | a stored value written for valid entries is read back, through the `?: ""` default, as exactly those entries in order |
| Leaderboard.DecodeEntryNameFrom | app/src/main/java/question/skill/quiz/LeaderboardScreen.kt:123 | a decoded name holds no character that its segment lacks |
| Leaderboard.DecodeAllNames | app/src/main/java/question/skill/quiz/LeaderboardScreen.kt:119-125 | segments cut on `\|` decode to names that hold neither `\|` nor `,` |
| Leaderboard.DecodeEntryAt | app/src/main/java/question/skill/quiz/LeaderboardScreen.kt:121-128 | a segment whose only `,` is at position `i` decodes to the name before it and the parsed score after it, or to nothing when the score does not parse |
| Leaderboard.DecodeEntryIff | app/src/main/java/question/skill/quiz/LeaderboardScreen.kt:121-128 | a segment yields an entry if and only if it contains exactly one `,` and the text after it parses as an `Int` |
| Leaderboard.DecodeAllAppend | app/src/main/java/question/skill/quiz/LeaderboardScreen.kt:120 | decoding a concatenation of segment lists gives the concatenation of their decodings |
| Leaderboard.DecodeAllSingle | app/src/main/java/question/skill/quiz/LeaderboardScreen.kt:120-129 | one segment decodes to its entry or to nothing |
| Leaderboard.DecodeAllOrigins | app/src/main/java/question/skill/quiz/LeaderboardScreen.kt:119-120 | every decoded entry comes from a segment that decodes to it; the entries keep the order of their segments, and every decodable segment contributes its entry |
| Leaderboard.EmptyGuardRedundant | app/src/main/java/question/skill/quiz/LeaderboardScreen.kt:115-117 | without the early return, `""` would still decode to no entries |
| Leaderboard.EncodeEntry | app/src/main/java/question/skill/quiz/LeaderboardScreen.kt:31 | the canonical writer of one record, which the decoder is inverted against: a written record always holds the field delimiter |
| Leaderboard.EncodeRecords | app/src/main/java/question/skill/quiz/LeaderboardScreen.kt:30-31 | the canonical writer of the records, which the decoder is inverted against: one record per entry, in order |
| Leaderboard.DecimalHasNoDelimiter | app/src/main/java/question/skill/quiz/LeaderboardScreen.kt:30-31 | a written score never holds `\|` or `,` |
| Leaderboard.DecodeEncodeEntry | app/src/main/java/question/skill/quiz/LeaderboardScreen.kt:121-125 | a record written from a valid entry decodes back to that entry |
| Leaderboard.DecodeAllEncoded | app/src/main/java/question/skill/quiz/LeaderboardScreen.kt:120-129 | the records of valid entries decode back to those entries, in order |
| Leaderboard.RoundTrip | app/src/main/java/question/skill/quiz/LeaderboardScreen.kt:113-130 | the `\|`-join of `name,score` records for valid entries (the empty list included, written as `""`) loads back as exactly those entries, in order |
| Leaderboard.NameWithFieldDelimiterIsLost | app/src/main/java/question/skill/quiz/LeaderboardScreen.kt:121-122 | a name that holds `,` is written as a record of at least three fields, and the whole entry is dropped |
| Leaderboard.NameWithEntryDelimiterIsCut | app/src/main/java/question/skill/quiz/LeaderboardScreen.kt:119-125 | a name `p\|q` is cut: `p` is dropped as a one-field segment and `q` comes back with the score |
| Leaderboard.EncodeCutName | app/src/main/java/question/skill/quiz/LeaderboardScreen.kt:30 | a name holding `\|` is written as two `\|`-separated segments |
| Leaderboard.RecordHasNoEntryDelimiter | app/src/main/java/question/skill/quiz/LeaderboardScreen.kt:30 | a record written from a valid entry holds no `\|` |
| Leaderboard.DropsMalformedSegments | app/src/main/java/question/skill/quiz/LeaderboardScreen.kt:119-128 | a valid record, an empty segment and a three-field segment load as the valid entry alone |
| Leaderboard.AnaOnly | app/src/main/java/question/skill/quiz/LeaderboardScreen.kt:113-130 | `Ana,50\|\|Bruno,x,y` loads as the single entry `Ana`, 50 |
| Leaderboard.AnaOnlyStored | app/src/main/java/question/skill/quiz/LeaderboardScreen.kt:30-31 | `Ana,50\|\|Bruno,x,y` is the `\|`-join of the record for `Ana`, 50, an empty segment and `Bruno,x,y` |
| LeaderboardSort.WithScore | app/src/main/java/question/skill/quiz/LeaderboardScreen.kt:53 | the entries with a given score: every entry with that score is there, and nothing else is |
| LeaderboardSort.Insert | app/src/main/java/question/skill/quiz/LeaderboardScreen.kt:53 | inserting adds exactly one entry and keeps a list sorted by descending score sorted |
| LeaderboardSort.SortedByDescending | app/src/main/java/question/skill/quiz/LeaderboardScreen.kt:53 | the sorted list is a permutation of the decoded list, and its scores never increase |
| LeaderboardSort.WithScoreInsert | app/src/main/java/question/skill/quiz/LeaderboardScreen.kt:53 | an inserted entry goes in front of the entries that share its score |
| LeaderboardSort.SortIsStable | app/src/main/java/question/skill/quiz/LeaderboardScreen.kt:53 | stability: for every score, the entries with that score come out in the order they were decoded |
| LeaderboardSort.SameOrderPerScore | app/src/main/java/question/skill/quiz/LeaderboardScreen.kt:53 | two lists sorted by descending score that order each score's entries the same way are equal |
| LeaderboardSort.SortIsUnique | app/src/main/java/question/skill/quiz/LeaderboardScreen.kt:53 | any list sorted by descending score that keeps each score's input order is the sort's result, so every stable descending sort gives this list |
| LeaderboardSort.Displayed | app/src/main/java/question/skill/quiz/LeaderboardScreen.kt:50-53 | the listed entries, read from the stored value through `LoadStored`, are a permutation of the decoded ones, highest score first, each valid |
| LeaderboardSort.ThreePlayers | app/src/main/java/question/skill/quiz/LeaderboardScreen.kt:50-53 | records stored in the order middle, highest, lowest are listed highest, middle, lowest |
| LeaderboardSort.ThreePlayersListed | app/src/main/java/question/skill/quiz/LeaderboardScreen.kt:50-53 | `Ana,50\|Bruno,80\|Carla,30` is listed as Bruno 80, Ana 50, Carla 30 |
| Leaderboard.ThreePlayersStored | app/src/main/java/question/skill/quiz/LeaderboardScreen.kt:30-31 | `Ana,50\|Bruno,80\|Carla,30` is the written form of the entries Ana 50, Bruno 80, Carla 30 |
| LeaderboardSort.SortThree | app/src/main/java/question/skill/quiz/LeaderboardScreen.kt:53 | three entries with distinct scores are sorted highest first |

## Left out

- The activity lifecycle and the Compose layout (`LeaderboardScreen.kt:35-110`): images, theming, the lazy column and text styling are user-interface code.
- Navigation back to the main menu (`LeaderboardScreen.kt:97-101`): starting an activity is a platform side effect.
- Shared-preferences access (`LeaderboardScreen.kt:50`, `114`): platform I/O. The stored value is a parameter: a `string` for `LoadLeaderboard`, or an `Option<string>` for `LoadStored`, which mirrors `getString(..., "") ?: ""`.
- The display text `name: score pontos` (`LeaderboardScreen.kt:87`): cosmetic, localized output.
- The `remember` memoization (`LeaderboardScreen.kt:51`): it belongs to the Compose runtime. `Displayed` decodes the value once and sorts the result.
- KotlinText.ToIntOrNull: accepts only the ASCII digits `0`-`9`. On the JVM, `toIntOrNull` also accepts the other Unicode decimal digits, through `Character.digit`.
- The record type: line 33 declares `LeaderboardEntryClass(name, score)`, but `loadLeaderboard` (lines 113 and 125) builds `LeaderboardEntry`. That type is declared in a file that is not part of this model. All that is visible of it is the two-argument call `LeaderboardEntry(name, score)` at line 125 and the uses of `.score` (line 53) and `.name` and `.score` (line 87). The model has one datatype, `Leaderboard.Entry(name, score)`.
- LeaderboardSort.SortedByDescending: Kotlin's stable merge sort is modelled as an insertion sort. `SortIsStable` and `SortIsUnique` show that both give the same list.
- Leaderboard.Encode, Leaderboard.EncodeRecords, Leaderboard.EncodeEntry, KotlinText.Join, KotlinText.Decimal, KotlinText.Digits: this file never writes the stored string and never calls `Int.toString`. These members are a canonical writer that the decoder is inverted against, to state the round trip. They are not a model of any writer in the source.
