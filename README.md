# Court-opinion coding: a verified model of the decision logic

The modelled program reads the text of a state supreme-court opinion and
codes it for an empirical data set. Each opinion becomes one record:

- the caption, the citation and the parties;
- the disposition code and the direction of the court's decision;
- the authors of the opinion, of the concurrences and of the dissents;
- the roster of justices;
- each justice's vote, raw and re-expressed as a vote for the appellant or
  the appellee;
- each justice's opinion role, and a nine-slot table of votes and roles.

A separate script normalises personal names into "last, first" form.

The model covers the decision logic of MainCode.py and the name normaliser
`clean_single_name` of bigcsvoutput.py. Every regular-expression search of
the original is an input to the model, not something it re-implements:

- a match group becomes a `string` or an `Option<string>`;
- `re.findall` becomes a sequence of matches;
- a yes/no search becomes a `bool`, or a search function over an enum of the
  patterns.

What happens to those results is modelled exactly: the ordered tables, the
loops, the string clean-ups, the dictionaries built from vote strings, and
the defaults and error paths.

Python semantics that matter are written out. A `dict` built from pairs is an
insertion-ordered map in which a repeated key keeps its first position and
takes its last value (`VoteText.DictOf`). `int()` may fail, and a failure
becomes the `Err` of a `Result`, as does a piece of a vote string that does
not split into two parts. The following built-ins are modelled over
`seq<char>`:

- `str.strip` and `str.split()`, with CPython's whitespace;
- `split(sep)`, `join`, `replace(pat, '')` and `rstrip(c)`;
- `str.lower`, on ASCII letters;
- the few `re.sub`s with literal patterns.

Modules, one per concern:

| module | models |
|---|---|
| `Wrappers` | `Option`, `Result`, a comprehension whose element may raise (`Each`), the first of several searches that matches (`FirstMatch`) |
| `Strings` | the string built-ins listed above, `int()` and `str()` on naturals |
| `OrderedRules` | first-match-wins over an ordered (test, code) table with a default |
| `Disposition` | `extract_disposition` and the court-decision table |
| `Roster` | the list processing of `extract_justices` |
| `VoteText` | the "NAME, code; NAME, code" vote strings: writing, reading back, the dict they become |
| `Votes` | `extract_votes_original` and `extract_votes_appellant_appellee` |
| `Opinions` | `extract_justice_info`, with the separate-opinion alternation |
| `Table` | the nine-slot justice table of `process_rtf_file` |
| `Caption` | `extract_case_name` and `extract_case_citation` |
| `Parties` | `extract_parties` |
| `Authors` | `extract_opinion_concur_dissent_authors` |
| `NameClean` | `clean_single_name` |

Three points where the code is easy to misread. The model follows the code,
as written:

- `Votes.Majority` takes the majority's side to be 2 when the court decision
  is 2, as MainCode.py:339 does, although the comment on that line reads
  "2 for Appellee, 1 for Appellant". A case coded 4 (reversed and remanded,
  court decision 2) therefore gets majority vote 2.
- The phrase table also yields 14, "affirmed and remanded"
  (MainCode.py:135), so `Disposition.Classify` ranges over 1 to 14.
- The two vote stages name the majority's side differently. One uses
  `2 if court_decision == 2 else 1` (MainCode.py:339), the other
  `2 if court_decision == 1 else 1` (MainCode.py:430). Both are modelled as
  written. `Opinions.MajorityConventions` proves that they disagree exactly
  for court decisions 1 and 2, and are then opposite.

## Model

| member | source | states |
|---|---|---|
| Wrappers.FirstMatchMeaning | MainCode.py:21-25 | trying searches in order gives nothing exactly when none finds anything, and otherwise the earliest find |
| Strings.StripShape | MainCode.py:184 | `strip()` leaves no whitespace at either end, adds no character, and is empty exactly when the text is all whitespace |
| Strings.JoinSplit | MainCode.py:333 | joining the pieces of `split(sep)` with `sep` gives the text back |
| Strings.JoinSplitReplace | bigcsvoutput.py:30 | splitting on `,` and joining with a blank replaces every comma by a blank |
| Strings.WordsJoin | MainCode.py:447 | `split()` of words joined by blanks gives the words back |
| Strings.WordsShape | MainCode.py:447 | every word of `split()` is a non-empty run of non-whitespace characters of the text |
| Strings.CutAtNewline | MainCode.py:188 | `re.sub(r'\n.*', '', s)` leaves the prefix of `s` before its first newline, which has no newline |
| Strings.ShowParses | MainCode.py:342 | `int(str(n)) == n` for every natural `n` |
| Strings.Lower | bigcsvoutput.py:23 | lowering keeps the length and lowers each character, leaving no upper-case letter |
| Strings.RStripChar | MainCode.py:61 | `rstrip(',')` takes a prefix that does not end with a comma, and every character it drops is a comma |
| OrderedRules.FirstHitWins | MainCode.py:143-146 | the rule at `i` gives the result when its test holds and no earlier test does |
| OrderedRules.NoHitDefault | MainCode.py:142-146 | with no test holding the default is the result |
| OrderedRules.FirstCodeIsFirstHit | MainCode.py:142-146 | the result is the code of the first rule that holds, or else the default |
| OrderedRules.HitBoundsWinner | MainCode.py:143-146 | a rule that holds bounds the winning rule: no later rule can win |
| Disposition.TableShape | MainCode.py:125-140 | row `i` of the phrase table holds the phrase of rank `i` with its code |
| Disposition.CodeOf | MainCode.py:125-140 | every phrase yields a code from 1 to 14 other than 13 |
| Disposition.Classify | MainCode.py:142-146 | every disposition code lies in 1 to 14 |
| Disposition.CourtDecision | MainCode.py:150-157 | the direction lies in 0 to 3, and is 0 exactly for 13 and codes outside 1 to 14 |
| Disposition.ExtractDisposition | MainCode.py:119-160 | the loop with its `break` returns the line (empty without the outcome header), the first-match code and its direction |
| Disposition.ClassifyFirstMatch | MainCode.py:142-146 | the code is that of the first phrase found, no earlier phrase is found, and 13 when nothing is found |
| Disposition.NoDispositionIffNothingFound | MainCode.py:142-146 | the code is 13 exactly when no phrase is found |
| Disposition.IndeterminateIffNothingFound | MainCode.py:142-157 | the direction is 0 exactly when no phrase is found |
| Disposition.FoundBoundsWinner | MainCode.py:143-146 | a phrase that is found is the winner or ranks after it |
| Disposition.CompoundReversedRemandedGivesEight | MainCode.py:127-136 | "affirmed and reversed in part and remanded" found gives 8, which shadows 2, 3 and 6 |
| Disposition.ReversedRemandedShadowsReversed | MainCode.py:126-133 | "reversed and remanded" found gives 4 or a compound code listed before it, never 3 |
| Disposition.RankInjective | MainCode.py:125-140 | each phrase has its own row |
| Disposition.CodeThreeOnlyReversed | MainCode.py:133 | only "reversed" (not followed by "and") yields 3 |
| Disposition.CodeTwoOnlyAffirmed | MainCode.py:136 | only "affirmed" on its own yields 2 |
| Disposition.ReversedAloneIffNoCompound | MainCode.py:126-146 | the code is 3 exactly when "reversed" is found and no phrase listed before it is |
| Disposition.AffirmedAloneIffNothingEarlier | MainCode.py:126-146 | the code is 2 exactly when "affirmed" is found and none of the ten phrases before it is |
| Disposition.DirectionOfWinningPhrase | MainCode.py:125-157 | the winning phrase decides the direction: reversals and grants 2, affirmances and denials 1, split rulings 3, no phrase 0 |
| Disposition.DirectionOfPhrase | MainCode.py:125-157 | the direction each phrase's code yields |
| Roster.RemoveSpaces | MainCode.py:222 | `re.sub(r'\s+', '', name)` leaves no whitespace, keeps at least one copy of each non-whitespace character and adds none, and leaves a name without whitespace unchanged |
| Roster.RemoveSpacesAppend | MainCode.py:222 | whitespace is removed piece by piece: the result for `a + b` is the result for `a` followed by the result for `b` |
| Roster.RemoveSpacesChar | MainCode.py:222 | a single whitespace character is removed and any other is kept; with `RemoveSpacesAppend` this fixes the result character by character |
| Roster.DropTitleSuffix | MainCode.py:223 | removing the title prefix only takes characters from the front |
| Roster.DropTitleParts | MainCode.py:223 | each of the optional words "VICE", "CHIEF", "ASSOCIATE", present or absent in that order before "JUSTICE", is removed with it and the rest is kept |
| Roster.DropTitlePrefix | MainCode.py:223 | for each of the eight prefixes the pattern `^(?:VICE)?(?:CHIEF)?(?:ASSOCIATE)?JUSTICE` matches, exactly that prefix is removed |
| Roster.DropTitleNone | MainCode.py:223 | a name that begins with none of the eight prefixes is kept unchanged |
| Roster.CleanName | MainCode.py:222-223 | a cleaned name has no whitespace and only characters of the match |
| Roster.Admitted | MainCode.py:220-225 | the admitted names are distinct, none is "JJ" and each is longer than one character |
| Roster.AdmittedMembers | MainCode.py:220-225 | a name is admitted exactly when it is a qualifying cleaned match |
| Roster.AdmittedSnoc | MainCode.py:221-225 | one loop step appends the cleaned match when it qualifies and is new, and otherwise changes nothing |
| Roster.CleanRoster | MainCode.py:220-225 | the clean-up loop builds the admitted list |
| Roster.CombineFrom | MainCode.py:228-238 | recombination never lengthens the list |
| Roster.CombineKeepsText | MainCode.py:228-238 | the concatenated names after recombination are the concatenated names before |
| Roster.CombineFragments | MainCode.py:228-238 | the loop with its `skip_next` flag computes the recombination |
| Roster.RemoveFirst | MainCode.py:244-245 | `list.remove` after a membership test drops one element when present and nothing otherwise |
| Roster.RemoveFirstSplices | MainCode.py:245 | the element removed is the first occurrence, and the others keep their order |
| Roster.RemoveFirstMultiset | MainCode.py:245 | `list.remove` takes exactly one copy out of the multiset |
| Roster.MoveToFrontPlacesAuthor | MainCode.py:241-246 | after the move the author is first, the rest keep their order, no other name is gained or lost, and an author listed at most once is listed exactly once |
| Roster.ExtractJustices | MainCode.py:206-250 | `extract_justices` computes the roster function |
| Roster.NoSectionNoJustices | MainCode.py:250 | without a "Judges:" section the roster is empty |
| Roster.CleanedSafe | MainCode.py:214-223 | a qualifying cleaned match is non-empty and free of whitespace, ',' and ';' |
| Roster.CombineKeepsSafe | MainCode.py:228-238 | recombining such names keeps them free of whitespace, ',' and ';' |
| Roster.JusticesAreSafe | MainCode.py:206-250 | every roster name is safe to write into a vote string |
| VoteText.PutLookup | MainCode.py:333 | a dict insertion stores its value under its key and leaves every other key's value |
| VoteText.PutKeys | MainCode.py:333 | a key already present keeps its position, and a new key goes last |
| VoteText.DictOfDistinctKeys | MainCode.py:333 | the dict built from pairs has no key twice |
| VoteText.PutKeepsDistinct | MainCode.py:333 | an insertion keeps the keys distinct |
| VoteText.DictOfDistinct | MainCode.py:333 | with distinct names the dict is the pair list itself, in order |
| VoteText.PutFresh | MainCode.py:333 | inserting a new key appends it |
| VoteText.LookupAt | MainCode.py:437 | `get` of a listed name finds its own value |
| VoteText.ParseEmptyFails | MainCode.py:333 | reading "" raises: its one piece does not split into two parts |
| VoteText.EntryShape | MainCode.py:305 | an entry of a safe name has no whitespace at either end and no ';' |
| VoteText.ParseEntry | MainCode.py:333 | an entry, with or without the blank after the previous ';', reads back as its name and code |
| VoteText.ParsePieces | MainCode.py:323-333 | each piece of a written list reads back as its pair |
| VoteText.ParseFormat | MainCode.py:323-333 | a written non-empty list of safe names reads back as the dict of its pairs |
| VoteText.EntriesSnoc | MainCode.py:305-320 | appending a vote appends its entry |
| VoteText.FormatEmpty | MainCode.py:323 | a written list is empty exactly when it has no entry |
| Votes.RawVote | MainCode.py:303-321 | every raw stance is a code from 1 to 5 |
| Votes.RawVoteCases | MainCode.py:303-321 | each stance is given exactly when its cue is found and no cue tested earlier is |
| Votes.RawVoteChain | MainCode.py:304-321 | the if-chain of the loop body agrees with the ordered cue table |
| Votes.RawVotesAt | MainCode.py:303-321 | entry `i` is roster justice `i` with that justice's stance |
| Votes.ExtractVotesOriginal | MainCode.py:288-323 | the loop writes the stance of every roster justice, in roster order |
| Votes.VotesOriginalEmpty | MainCode.py:294-295 | the original vote string is empty exactly when the roster is |
| Votes.VotesOriginalReadsBack | MainCode.py:323-333 | the next stage reads the original string back as its dict, and for distinct names as the roster in order |
| Votes.Majority | MainCode.py:339 | the majority's side is 1 or 2 |
| Votes.Adjust | MainCode.py:342-354 | with a majority of 1 or 2 every re-expressed vote lies in 1 to 5 |
| Votes.AdjustCases | MainCode.py:343-354 | a dissent votes against the majority's side and a concurrence with it, 3, 4 and 5 are kept, and any other value goes to the majority |
| Votes.AllMixed | MainCode.py:336-337 | a mixed decision gives one entry per justice |
| Votes.AllMixedAt | MainCode.py:337 | under a mixed decision every justice, in dict order, gets 3 |
| Votes.AdjustedPrefixFails | MainCode.py:341-342 | once an `int()` fails, the stage fails with that error |
| Votes.AdjustedStep | MainCode.py:341-354 | one loop step appends the re-expressed vote, or fails when `int()` fails |
| Votes.ExtractVotesAppellantAppellee | MainCode.py:325-356 | the stage with its loop computes the function, including the empty and error results |
| Votes.AdjustedVotesFailure | MainCode.py:341-342 | the stage fails exactly when some value is not an integer, and then with the error of the first such value |
| Votes.AdjustedVotesValues | MainCode.py:341-356 | a stage that succeeds keeps every justice in order with the re-expressed vote |
| Votes.AdjustAll | MainCode.py:341-356 | re-expression keeps the number of votes |
| Votes.FinalVotesAt | MainCode.py:303-356 | each roster justice, in order, ends with 3 under a mixed decision and otherwise with the re-expressed stance, always in 1 to 5 |
| Votes.Pipeline | MainCode.py:288-356 | for distinct safe names, the second stage reads the first stage's string without error and writes every justice's final vote in roster order |
| Opinions.InfoMajority | MainCode.py:430 | the majority's side in this stage is 1 or 2 |
| Opinions.MajorityConventions | MainCode.py:430 | the two stages' majorities differ exactly for court decisions 1 and 2, and are then opposite |
| Opinions.SeparateCode | MainCode.py:471-476 | a separate opinion gets 3, 4, 6, 7 or 9 |
| Opinions.SeparateCodeMeaning | MainCode.py:471-476 | 9 exactly for the mixed alternative, 6 or 7 exactly for dissent, 3 or 4 exactly for concurrence, and the writer's code exactly when nobody joins |
| Opinions.FirstAlternative | MainCode.py:465 | the alternation captures the first listed alternative the text begins with, and nothing exactly when it begins with none |
| Opinions.ConcurringOrDissenting | MainCode.py:465 | no text begins with both "concurring" and "dissenting" |
| Opinions.MixedBeginsConcurring | MainCode.py:465 | text that begins with the mixed alternative begins with "concurring" and not with "dissenting" |
| Opinions.WrittenOrderNeverMixed | MainCode.py:465 | as written, the mixed alternative is never captured, and text that begins with it is read as "concurring" |
| Opinions.WrittenOrderMisreadsMixed | MainCode.py:465-476 | "concurring in part and dissenting in part" is coded 3 as written instead of 9 |
| Opinions.LongestFirstCapturesMixed | MainCode.py:465 | tried longest first, the mixed alternative is captured exactly when the text begins with it |
| Opinions.LongestFirstAgrees | MainCode.py:465 | on every other text both orders capture the same alternative |
| Opinions.SeparateMatch | MainCode.py:465 | corrected (longest alternative first, see Findings): a match keeps the justice and the joiners |
| Opinions.SeparateMatchCode | MainCode.py:465-476 | corrected (longest alternative first, see Findings): a match is coded 9 exactly when its text begins with the mixed alternative |
| Opinions.LastWordsOfNames | MainCode.py:447 | the last word of each blank-prefixed name is the name |
| Opinions.JoinersOfNames | MainCode.py:447 | names written "A, B, C" are read back as the joiners A, B and C |
| Opinions.Truncate | MainCode.py:493 | `info[:9]` has at most nine records, keeps a short list and cuts a long one to nine |
| Opinions.TruncateKeeps | MainCode.py:493 | the cut keeps the first records as they are |
| Opinions.JusticeInfo | MainCode.py:419-493 | the result has at most nine records, and none for an empty roster |
| Opinions.JusticeInfoStages | MainCode.py:423-428 | either vote string failing to parse is the failure, the original first; otherwise the result is the records, cut at nine |
| Opinions.ListingAt | MainCode.py:458-462 | one listed justice gets the vote from the dict, or the error of `int()` |
| Opinions.ListedMeaning | MainCode.py:457-462 | listing succeeds exactly when every vote is an integer, and then gives one record per name, in order |
| Opinions.ListRecords | MainCode.py:457-462 | the loop computes the listing |
| Opinions.MajorityRecordsMeaning | MainCode.py:445-462 | the majority author first with code 1 and its vote, then each joiner in order with code 2 |
| Opinions.MajorityStages | MainCode.py:445-462 | majority records that succeed are the author's record and then the joiners' |
| Opinions.MajorityCodes | MainCode.py:445-462 | majority records carry codes 1 and 2, and a matched author comes first |
| Opinions.SeparateMeaning | MainCode.py:467-482 | one record per separate-opinion match, in order, with its code and a vote defaulting to "3" |
| Opinions.SeparateRecords | MainCode.py:467-482 | the loop computes the separate records |
| Opinions.SeparateCodes | MainCode.py:467-482 | separate records carry separate-opinion codes |
| Opinions.RemainingStep | MainCode.py:485-491 | one loop step skips a justice already named and otherwise appends a code-2 record, or fails |
| Opinions.RemainingPrefixFails | MainCode.py:485-491 | once a vote fails to parse, the loop fails with that error |
| Opinions.RemainingMeaning | MainCode.py:484-491 | the loop keeps the earlier records, names every roster justice, and adds only unnamed roster justices with code 2 |
| Opinions.AddRemaining | MainCode.py:485-491 | the loop computes the remaining-justices step |
| Opinions.RemainingCodes | MainCode.py:485-491 | adding the remaining justices keeps the codes and the earlier records |
| Opinions.PerCuriamRecords | MainCode.py:433-440 | a per curiam opinion lists the roster in order with code 5, failing exactly when some vote is not an integer |
| Opinions.RecordsStages | MainCode.py:442-491 | records without a per curiam opinion are the remaining justices added to the majority and separate records |
| Opinions.RecordsWithoutPerCuriam | MainCode.py:442-491 | without a per curiam opinion every code is 1, 2, 3, 4, 6, 7 or 9, a matched author comes first with code 1, and every roster justice is named |
| Opinions.ExtractJusticeInfo | MainCode.py:419-493 | `extract_justice_info` with its loops computes the function |
| Opinions.InfoWithoutPerCuriam | MainCode.py:419-493 | the whole stage without a per curiam opinion: the codes, the author first, and every roster justice named unless the list was cut |
| Opinions.StringifiedVotes | MainCode.py:437 | each roster justice reads back its own vote, whatever the default |
| Opinions.PerCuriamListed | MainCode.py:434-439 | per curiam records carry, justice by justice, the votes the list gives |
| Opinions.FinalVotesRead | MainCode.py:325-356 | the final vote string of distinct safe names reads back as its pairs, in order |
| Opinions.PerCuriamOfVotes | MainCode.py:427-440 | with parsing vote strings, a per curiam opinion records each roster justice, up to nine, with the vote the string gives and code 5 |
| Opinions.PerCuriamPipeline | MainCode.py:433-440 | the three stages together: under a per curiam opinion, each recorded justice carries its final vote from the vote stages |
| Table.FillJusticeTable | MainCode.py:509-518 | the `range(1, 10)` loop with its two branches builds the nine-slot table |
| Table.KeysDistinct | MainCode.py:512-514 | two columns have the same name only when slot and field agree |
| Table.KeysDiffer | MainCode.py:512-518 | the columns of a slot are written by no other slot or field |
| Table.FillAt | MainCode.py:510-518 | after slots 1 to `n` are written, each of their columns holds what its slot should |
| Table.FillKeys | MainCode.py:509-518 | every column belongs to one of the slots written |
| Table.TableSlots | MainCode.py:510-518 | each slot has an empty name, copies the vote and opinion when a record exists, and holds 88 in both otherwise |
| Table.TableColumns | MainCode.py:509-518 | the table has exactly the 27 columns of its nine slots |
| Caption.CaseNameMeaning | MainCode.py:16-25 | the case name is empty exactly when no pattern matches, and is otherwise the first match's stripped sides around " v. " |
| Caption.CaseNameSides | MainCode.py:24 | the two sides can be read back around the " v. " |
| Caption.CaseCitationMeaning | MainCode.py:26-35 | the citation is the first match's group, stripped, and empty when no pattern matches |
| Parties.FirstPatternWins | MainCode.py:45-70 | the first pattern that matches decides the parties, and no match gives none |
| Parties.ExParteRoles | MainCode.py:51-58 | with three groups, "ex parte" in the first group makes it the appellee and the third the appellant, and otherwise the second and third are appellant and appellee |
| Parties.LastWordShape | MainCode.py:66-69 | a name that starts with a non-space has a non-empty last word without whitespace |
| Parties.StateNameHasWord | MainCode.py:66-69 | a name starting with "state" has a last word to keep |
| Parties.StateWords | MainCode.py:66-69 | "State of" and a word are those three words |
| Parties.StateFormIdempotent | MainCode.py:66-69 | renaming a state party twice is renaming it once |
| Parties.PartyShape | MainCode.py:60-69 | a cleaned party has no whitespace at either end; a state party reads "State of" and its last word; any other party is the cleaned text |
| Authors.DedupeMeaning | MainCode.py:184 | de-duplication leaves each name once and keeps exactly the same names |
| Authors.CutShape | MainCode.py:184-189 | a non-blank match gives a non-empty name without newline that starts with a non-space |
| Authors.CutNamesMembers | MainCode.py:184-189 | the cut names are exactly the first lines of the stripped non-blank matches |
| Authors.AuthorListMeaning | MainCode.py:184-189 | the corrected list names each author once, exactly those first lines, each a non-empty line, and is empty exactly when every match is blank |
| Authors.CutEachSameNames | MainCode.py:184-189 | whatever order the set is listed in, the list as written names the same authors as the corrected one, and both are empty together |
| Authors.CutEachCollides | MainCode.py:184-189 | two set members with the same first line become a repeated name |
| Authors.TwoLineNames | MainCode.py:188 | "AB\nC" and "AB\nD" are different stripped matches with the same first line "AB" |
| Authors.CutEachRepeats | MainCode.py:184-189 | as written, those two matches give the name "AB" twice, in either set order |
| Authors.ExtractAuthors | MainCode.py:162-195 | corrected (cut, then de-duplicate, see Findings): each concurring and each dissenting author is listed once |
| Authors.ExtractAuthorsAsWritten | MainCode.py:162-195 | as written: one name per listed set member, each cut at its first newline, in the set's listed order; "PER CURIAM" when nobody is named and both sets are empty, otherwise the stated author |
| Authors.AsWrittenAgrees | MainCode.py:162-195 | for any order of the sets, the code as written picks the same author as the corrected version and names the same concurring and dissenting authors |
| Authors.AuthorChoiceAsWritten | MainCode.py:167-193 | the author choice below holds for the code as written, whatever order its sets are listed in, including the exact "PER CURIAM" default |
| Authors.AuthorChoice | MainCode.py:167-193 | "authored the opinion" beats "Opinion by", which beats "PER CURIAM"; the author is exactly "PER CURIAM" when nobody is named and every concurrence and dissent match is blank, and the stated author otherwise; it is empty exactly when nobody is named and someone concurs or dissents |
| NameClean.TitleIn | bigcsvoutput.py:17-19 | a title match is followed by a whitespace character |
| NameClean.LeadingTitle | bigcsvoutput.py:17-19 | a title in any case, then whitespace, at the start is removed with the whitespace |
| NameClean.MidTitle | bigcsvoutput.py:17-19 | a title in any case, then whitespace, that follows a whitespace character anywhere in the name is removed with its whitespace, and the text on either side is cleaned on its own, as in "Smith, Dr. John" |
| NameClean.UntitledSplit | bigcsvoutput.py:17-19 | the title removal splits just after any whitespace character: what comes before and what comes after are cleaned independently |
| NameClean.TitleInBeforeSpace | bigcsvoutput.py:17 | a title match never looks past a whitespace character, since no title contains one |
| NameClean.TitleInHead | bigcsvoutput.py:17 | the title match at a position depends only on the text up to the first whitespace character |
| NameClean.UntitledIsScan | bigcsvoutput.py:19 | the title removal is the left-to-right scan that drops a match starting a word and keeps every other character |
| NameClean.ScanSplit | bigcsvoutput.py:19 | that scan splits just after any whitespace character |
| NameClean.MatchUnique | bigcsvoutput.py:17 | two whitespace-free words that both match at the start are the same |
| NameClean.TitleInFinds | bigcsvoutput.py:17-19 | whichever alternative matches, the match found has its length |
| NameClean.TitleFirst | bigcsvoutput.py:17-19 | a leading title is found with its exact length |
| NameClean.NoPeriodKeepsTitles | bigcsvoutput.py:17-19 | a name with no period loses no title |
| NameClean.TitleHasPeriod | bigcsvoutput.py:17 | a title is only found in text with a period |
| NameClean.LastToken | bigcsvoutput.py:18 | the last token is a whitespace-free end preceded by whitespace or the start |
| NameClean.SuffixShape | bigcsvoutput.py:18 | a suffix has no whitespace and does not end with a newline |
| NameClean.TokenOf | bigcsvoutput.py:18 | the last token of `a + t` is `t` when `a` ends with whitespace |
| NameClean.SuffixCut | bigcsvoutput.py:18-20 | a whitespace character and a suffix at the end are cut off |
| NameClean.SuffixAtEnd | bigcsvoutput.py:18-20 | a suffix after whitespace at the end of a name is removed with that whitespace |
| NameClean.SuffixBeforeNewline | bigcsvoutput.py:18-20 | the same holds before a final newline, which stays |
| NameClean.MissingName | bigcsvoutput.py:14-15 | a missing name gives the empty string |
| NameClean.CleanNameNoUpper | bigcsvoutput.py:23 | the result has no upper-case letter |
| NameClean.ArrangeNoUpper | bigcsvoutput.py:26-36 | rearranging a lowered name adds no upper-case letter |
| NameClean.CommaNoUpper | bigcsvoutput.py:29-30 | the comma form of a lowered name has no upper-case letter |
| NameClean.WordsNoUpper | bigcsvoutput.py:32-34 | the rotated form of a lowered name has no upper-case letter |
| NameClean.CommaForm | bigcsvoutput.py:26-30 | with a comma, the result is the stripped text before the first comma, ", ", and the stripped rest with later commas as blanks |
| NameClean.WordsRotated | bigcsvoutput.py:31-34 | with no comma and at least two words, the last word comes first and the words are the name's words rotated |
| NameClean.Rotated | bigcsvoutput.py:34 | the words of the rotated form are the last word with a comma, then the others |
| NameClean.SingleWord | bigcsvoutput.py:35-36 | with no comma and at most one word, the result is the stripped name and has no comma |

## Left out

- Regular expressions: each search or `findall` of the original is an input,
  not a re-implementation. Its guarantees enter as preconditions where a
  lemma needs them (`Roster.WellFormedSection`: matches without ',' or ';',
  and a `\w+` author).
- Character handling: `str.lower`, `re.IGNORECASE` and `\w` are modelled on
  ASCII letters only. Unicode case folding is not modelled.
- `int()`: underscores between digits and non-ASCII digits are not accepted.
- I/O and other modules: `extract_text_from_rtf`, the folder and CSV
  plumbing, every `print`, and the dask and pandas wrappers of
  bigcsvoutput.py are not modelled. chatgptoption.py and split.py are not
  part of this model: they are an API call and CSV chunking, with no
  decision logic.
- Other extractors: `extract_decision_date` depends on `datetime.strptime`,
  a library parser. `extract_area_of_law` and `extract_prior_history` are
  not part of this model.
- Unreachable code: the code that follows `return` after the
  commented-out definitions (MainCode.py:251-285 and 357-418).
- Roster and vote strings: the roster is what `extract_justices` returns once
  for the whole record. `extract_votes_original` finds the "Judges:" section
  again with the same search, so that section is taken to exist whenever the
  roster is non-empty.
- Votes.Pipeline, Opinions.PerCuriamPipeline: stated for rosters of distinct
  names free of whitespace, ',' and ';'. For other names the vote string does
  not read back as written. Recombination can also make two roster names
  equal, and repeated names collapse in the dict; the model computes those
  cases, but these lemmas do not describe them.
- Opinions.InfoWithoutPerCuriam: every roster justice is stated to be
  named only when the list is not cut at nine. The cut can drop the last
  records.
- Opinions.JusticeInfo: as in the original, the parse of the original vote
  string is only checked for failure; `extract_justice_info` reads its votes
  from the appellant/appellee string alone.
- Opinions.SeparateMatch: the separate-opinion matches come in as
  `SeparateOpinion` values. `SeparateMatch` builds one for a single match, but
  the scan of the whole text for every match is left to the regular
  expression.
- Authors.CutEach: the order of `list(set(...))` is unspecified in Python.
  It is an input (`order`), tied to the set by `Authors.Enumerates`.
- Table.Fill: a Dafny `map` has no insertion order. The table's 27 columns
  and their values are modelled, but not the order of the dict's keys.
- Parties.PartyShape: the text that `replace('v.', '')` and
  `replace('vs.', '')` leave is computed but not characterised beyond its
  ends.

## Findings

| source | as written | input that shows it | evidently intended | confidence | as-written member | corrected member |
|---|---|---|---|---|---|---|
| MainCode.py:465 | the alternation of "concurring", "dissenting" and "concurring in part and dissenting in part" tries "concurring" first, and nothing after the group is required, so the longer alternative can never be captured | "JUSTICE X, concurring in part and dissenting in part" captures "concurring" and is coded 3 | the longest alternative is tried first, so that the mixed opinion is coded 9 (MainCode.py:471-472) | not executed | Opinions.WrittenOrderMisreadsMixed | Opinions.LongestFirstCapturesMixed |
| MainCode.py:184-189 | names are de-duplicated by `set` before `re.sub(r'\n.*', '')` cuts them at their first newline, so two matches that differ only after a newline become the same name twice | the matches "AB\nC" and "AB\nD" (the pattern's `\s+` spans newlines) give ["AB", "AB"] | each author listed once after the clean-up, as the comment on the cut says | not executed | Authors.CutEachRepeats | Authors.AuthorListMeaning |

In the model, the separate-opinion alternation is tried longest first
(`Opinions.SeparateMatch`, with `Opinions.SeparateMatchCode`). The author
lists are cut first and then de-duplicated in order of first occurrence
(`Authors.AuthorList`, used by `Authors.ExtractAuthors`). The code as
written is `Authors.ExtractAuthorsAsWritten`, and `Authors.AsWrittenAgrees`
proves that the two differ only in repeats and order.
