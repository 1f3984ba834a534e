# refkit core, modelled in Dafny

refkit turns a loose lookup text (a citation, a DOI, an arXiv identifier) into a bibliographic
record. This project models its deterministic core and proves what that core promises:

- **Identifier extraction** (`doi.dfy`, `isbn.dfy`, `arxivid.dfy`, over the generic
  `re.finditer` / `re.search` drivers of `matching.dfy`). Each regular expression of the
  library is a hand-written matcher over `seq<char>`; the boundary checks on the neighbouring
  characters and the resumption of the scan after a rejected match are written out.
- **Scoring and ranking** (`citation.dfy`, and the ranking half of `crossref.dfy`). The
  word-overlap ratio is an exact `real`. Candidates are ranked by a stable insertion sort,
  proved a permutation that orders by descending score with ties in input order. The two
  thresholds accept, ask the user, or give up.
- **Normalisers** (`author.dfy`, `journal.dfy`). These are pure functions for name
  capitalisation, initials, name splitting and the four-tier journal abbreviation. The
  pickled journal dictionaries are the parameter `Journal.Tables`.
- **The record** (`metadata.dfy`).
  - The `Metadata` class has one field per attribute of the Python object. Its methods
    (`SetDefaults`, `Tidy`, the back-fills, `ToUnformattedString` and the list helpers)
    update those fields.
  - Each method is proved against a function on `Record`, the value of the fields.
  - The citation strings of `toReferenceString` are functions of that value, since they only
    read the fields.
- **Population** (`crossref.dfy`, `arxiv.dfy`, over the JSON value of `json.dfy` and an
  element tree). Every `_save*` mapper is a method that changes a `Metadata` object, proved
  against a function on records.
- **Orchestration** (`reference.dfy`). It tries arXiv.org, then CrossRef.org seeded with each
  record found so far, and then with the raw input. The two services are function parameters.
  `Reference.ModelledServices` plugs in the two modelled providers.

Python exceptions are the `Error` values of `wrappers.dfy`. `except Exception` catches all of
them except `SystemExit`, which ends the program after an interrupted prompt. Web requests,
XML parsing and the person at the prompt are function parameters.
- `runQuery` is the CrossRef.org free-text search.
- `fetch` returns the CrossRef.org record of a DOI, or the arXiv answer parsed into elements.
- `user` gives the lines typed when a list of candidates is shown.

## Model

| member | source | states |
|---|---|---|
| Doi.MatchAt | util/doi.py:41 | a match at `p` exists exactly when "10.", a non-empty run of digits and dots, a slash and a non-empty whitespace-free token follow `p`, and it ends where that token meets whitespace or the end of the text |
| Doi.StrippedMatch | util/doi.py:18 | after `rstrip('-./')` a match still starts with "10", holds no whitespace and does not end in `-`, `.` or `/` |
| Doi.FirstStart | util/doi.py:15-17 | the start returned is that of a match of the scan that passes `_validateStart` while every earlier match of the scan fails it |
| Doi.Extract | util/doi.py:7-19 | a DOI extracted is the stripped text of the first match of the scan with a valid start, and looks like a DOI; otherwise ValueError with the source's message |
| Doi.ExtractFindsDoiAfterSpace | util/doi.py:15-19 | a match at the start of the text or after whitespace is never missed |
| Doi.MatchStartsAfterSpace | util/doi.py:21-35 | a match that covers a position at the start of the text or after whitespace starts at that position, so `_validateStart` accepts it |
| Doi.ExtractFailure | util/doi.py:15-19 | extraction fails exactly when every match of the scan follows a word character |
| Doi.ExtractFirstMatch | util/doi.py:15-18 | the first match of the scan with a valid start is the one returned, whatever rejected matches come before it |
| Doi.ExtractAfterLabel | util/doi.py:31-35 | for `doi:10.1/x` the colon is not a word character, so the result is `10.1/x` |
| Doi.ExtractStripsTrailingDot | util/doi.py:18 | for `10.1/ab.` the trailing full stop is stripped |
| Doi.ExtractRejectsGluedDoi | util/doi.py:31-34 | for `x10.1/ab` the match follows a word character, so extraction fails |
| Doi.ExtractSkipsRejectedMatch | util/doi.py:15-18 | for `x10.1/a 10.2/b 10.3/c` the glued first match is rejected and `10.2/b`, the first accepted one, is returned |
| Isbn.MatchAt | util/isbn.py:55 | 13 digits are taken whenever 13 follow `p`, else 10 digits when 10 follow; none means fewer than 10 digits follow `p` |
| Isbn.Extract | util/isbn.py:7-20 | with hyphens removed, a result is 10 or 13 digits found in the text with no word character on either side; otherwise ValueError with the source's message |
| Isbn.ExtractFailure | util/isbn.py:15-20 | ValueError is raised exactly when every match of the scan of the hyphen-free text touches a `\w` character |
| Isbn.ExtractFirstMatch | util/isbn.py:16-19 | the first match of the scan with no `\w` character on either side is the ISBN returned |
| Isbn.ExtractFindsIsbn | util/isbn.py:7-20 | a run of exactly 10 or 13 digits in the hyphen-free text with no `\w` character on either side means some ISBN is extracted |
| Isbn.MatchAtRun | util/isbn.py:55 | at a run of exactly 10 or 13 digits the pattern matches exactly that run |
| Isbn.MatchOfRun | util/isbn.py:18 | a match covering such a run is that run, and it passes `_validateStart` and `_validateEnd` |
| Isbn.ExtractIgnoresHyphens | util/isbn.py:15 | the text and the text without hyphens give the same result |
| Isbn.ExtractDigits | util/isbn.py:15-52 | a text of digits alone holds an ISBN exactly when it has 10 or 13 digits, and then the ISBN is the whole text |
| Citation.Words | util/citation.py:19-20 | each word is non-empty and made of lower-case letters, digits and underscores |
| Citation.WordsOfWordText | util/citation.py:19-20 | splitting text made only of spaces and lower-case word characters gives such words |
| Citation.CountIn | util/citation.py:21-22 | the count of lookup words found is at most their number; it equals their number when all are found and is 0 when none is |
| Citation.Overlap | util/citation.py:10-22 | a lookup without words raises ZeroDivisionError; otherwise the score is between 0 and 1, it is 1 exactly when every lookup word is in the citation and 0 exactly when none is |
| Citation.CountInSameWords | util/citation.py:21 | the count depends on the citation only through which words it contains |
| Citation.CountInMore | util/citation.py:21 | more citation words never lower the count |
| Citation.WordsConcat | util/citation.py:19-20 | text joined by a space has the words of both parts, in order |
| Citation.OverlapGrowsWithCitation | util/citation.py:10-22 | adding text to the citation never lowers the score |
| Citation.OverlapSameWords | util/citation.py:10-22 | citations with the same set of words give the same score |
| Citation.OverlapSelf | util/citation.py:10-22 | a text with words scores 1 against itself |
| Citation.OverlapIgnoresCase | util/citation.py:19-20 | lower-casing the lookup or the citation does not change the score |
| ArxivId.NewMatchAt | util/arxivid.py:90 | a match at `p` is exactly nine characters of the form IIII.IIII |
| ArxivId.OldMatchAt | util/arxivid.py:94 | a match at `p` is a letter, letters, hyphens or dots, a slash and seven digits, and every such old-shaped text at `p` is the match |
| ArxivId.ExtractNew | util/arxivid.py:23-68 | a new-format result is an IIII.IIII text of the input with no word character before it and a valid end |
| ArxivId.ExtractNewNone | util/arxivid.py:31-35 | the new format gives None exactly when every match of the scan fails the start or end check |
| ArxivId.ExtractNewFirstMatch | util/arxivid.py:31-34 | the first match of the scan passing both checks is the identifier returned |
| ArxivId.ExtractNewFinds | util/arxivid.py:23-35 | an IIII.IIII identifier with valid surroundings, not preceded by a dot, means some new-format identifier is returned |
| ArxivId.NewMatchChars | util/arxivid.py:90 | a new-format match holds only digits and dots |
| ArxivId.SubjectIsFirstPiece | util/arxivid.py:82 | for an old-format match, `id.split('/')[0]` is the part before the slash |
| ArxivId.ExtractOld | util/arxivid.py:70-86 | an old-format result names a known subject area, occurs in the input and has a valid end |
| ArxivId.ExtractOldLeftmost | util/arxivid.py:78-84 | the result is the leftmost old-shaped match when it names a known subject area and has a valid end, and None otherwise |
| ArxivId.ExtractOldFinds | util/arxivid.py:70-86 | an old-format identifier with a valid end and no letter before it is the one returned, whatever character precedes it |
| ArxivId.Extract | util/arxivid.py:8-21 | a new-format identifier wins; without one, the old-format identifier `extractOld` finds is the result; failing both raises ValueError with the source's message |
| ArxivId.ExtractWholeNewId | util/arxivid.py:16-21 | a text that is exactly an IIII.IIII identifier is returned whole |
| ArxivId.NoNewWithoutDot | util/arxivid.py:31-35 | a text without a dot holds no new-format identifier |
| ArxivId.NewOnlyAtStart | util/arxivid.py:31 | a text with an identifier at its start and no other new-format match scans to that one match |
| ArxivId.ExtractWithVersion | util/arxivid.py:64-68 | `1234.5678v2`: the version suffix is allowed and `1234.5678` is returned |
| ArxivId.ExtractRejectsFiveDigits | util/arxivid.py:64-68 | `1234.56789`: the digit after the match makes it invalid, and nothing is extracted |
| ArxivId.NoOldWithoutLetter | util/arxivid.py:78-84 | a text without a letter holds no old-format identifier |
| ArxivId.ExtractOldAfterDigit | util/arxivid.py:78-83 | `1hep-th/1234567` gives `hep-th/1234567`: the old format does not check the character before |
| ArxivId.ExtractOldLeftmostOnly | util/arxivid.py:79-84 | `cs/12345678 cs/1234567` gives nothing: only the leftmost old-format match is tried |
| Matching.FindIter | util/doi.py:15-16 | the scan of `re.finditer` yields matches of the pattern, left to right and without overlap |
| Matching.FindIterComplete | util/doi.py:15-16 | the scan misses no match: a position where the pattern matches starts a listed match or lies inside one |
| Matching.FirstValid | util/doi.py:16-18 | the loop over the matches stops at the first one that passes the check, and every earlier one fails it |
| Matching.Search | util/arxivid.py:79 | `re.search` gives the leftmost match, with no match at any earlier position |
| Matching.SearchIsFirstOfFindIter | util/arxivid.py:79 | the leftmost match is the first match of the scan |
| Text.TitleFrom | format/author.py:84 | `str.title()` keeps the length, the letters and the non-letters, and changes only the case of letters |
| Text.TitleFromIdempotent | format/author.py:84 | title-casing twice is title-casing once |
| Text.TitleLowerWord | format/author.py:102 | a lower-case word is title-cased by upper-casing its first letter |
| Text.Split | format/author.py:77 | `split(sep)` gives at least one piece, and no piece holds the separator |
| Text.SplitFirst | lookup/arxiv.py:115 | `split('-')[0]` is a prefix of the text that ends at the first hyphen or at the end |
| Text.SplitJoin | format/author.py:77-91 | splitting undoes a join when no part holds the separator |
| Text.SplitWs | util/citation.py:19 | `split()` gives non-empty words without whitespace |
| Text.SplitWsJoin | util/citation.py:19 | splitting on whitespace undoes joining words with single spaces |
| Text.StripCollapse | metadata.py:213-214 | collapsing whitespace and stripping is joining the words with single spaces |
| Text.TidyTextWords | metadata.py:205-215 | `_tidyObject` keeps exactly the words of the text, joined by single spaces |
| Text.TidyTextIsTidy | metadata.py:205-215 | a tidied text has no whitespace but single inner spaces |
| Text.TidyTextKeepsWords | metadata.py:205-215 | tidying keeps the words of the text |
| Text.TidyTextIdempotent | metadata.py:205-215 | tidying a tidied text changes nothing |
| Text.CountSplit | format/journal.py:28 | a split on a character has one piece more than the text has occurrences of it |
| Text.JoinSplit | format/author.py:77-91 | joining the pieces of a split with the separator gives the text back |
| Text.IndexOf | metadata.py:221-225 | `find` gives the first position from `from` where the text occurs, and nothing exactly when it occurs at no such position |
| Text.RemoveChar | metadata.py:221 | `replace(' ', '')` leaves no occurrence of the character |
| Text.RStripSet | util/doi.py:18 | `rstrip(chars)` removes the longest suffix made of the given characters: the result is a prefix that does not end with one of them |
| Text.LStripSetSuffix | format/author.py:98-100 | `lstrip(chars)` removes the longest prefix made of the given characters: the result is a suffix that does not start with one of them |
| Author.Initials | format/author.py:139-146 | one initial per non-empty piece, each a character and a dot; empty pieces, whose `i[0]` raises, give none |
| Author.InitialsOfNonEmpty | format/author.py:139-146 | the initials are exactly the first characters of the non-empty pieces, in order |
| Author.SplitOnce | format/author.py:155 | `split(',', 1)` gives the whole text when there is no comma, or the text before the first comma and the rest |
| Author.NonEmpty | format/author.py:155 | `filter(len, ...)` keeps only non-empty pieces |
| Author.SplitNameAtComma | format/author.py:148-155 | at most two stripped, non-empty sides of the first comma, and at most one without a comma |
| Author.FirstFullWord | format/author.py:210-211 | the first later word longer than one character without a final dot, and none before it |
| Author.SplitNameByAbbreviations | format/author.py:200-213 | succeeds exactly when the first word is an initial and a later full word exists; the family name then starts at the first such word; otherwise ValueError with the source's message |
| Author.IdentifyPartsOfName | format/author.py:188-198 | the given and family names split the words at one point and join back to the name; on the fallback the family name is the last word |
| Author.SplitNameByWords | format/author.py:170-186 | no words give two empty names, one word is the family name, two words are given and family name, and more words are split so that both names join back to the words |
| Author.SplitName | format/author.py:44-52 | "Family, Given" is read at the comma; otherwise the name is split by words |
| Author.CapitalizePiecePlain | format/author.py:94-103 | re-casing a piece without hyphens or whitespace keeps it so, and keeps it non-empty |
| Author.SetCapitalizationPlain | format/author.py:87-103 | `_setCapitalization` keeps a segment free of hyphens and whitespace, and non-empty |
| Author.CapitalizeSegmentPlain | format/author.py:79-84 | re-casing one hyphen segment keeps it free of hyphens and whitespace, and non-empty |
| Author.CapitalizeHyphenatedNameShape | format/author.py:68-85 | a capitalised word is a word again, and its hyphen segments are the capitalised segments |
| Author.CapitalizeNameShape | format/author.py:54-66 | the words of a capitalised name are the capitalised words of the name |
| Author.CapitalizeLowerCaseName | format/author.py:54-85 | a name without upper-case letters is only re-spaced: segments that are not all upper case are kept as written |
| Author.PrefixedPieceHasLower | format/author.py:97-100 | a piece re-cased with the "Mc" or "Mac" prefix keeps a lower-case letter |
| Author.SetCapitalizationLower | format/author.py:87-103 | an all-uppercase result of `_setCapitalization` lower-cases to the lower-cased input |
| Author.CapitalizeSegmentIdempotent | format/author.py:79-84 | re-casing a family-name segment twice changes nothing more |
| Author.CapitalizeHyphenatedNameIdempotent | format/author.py:68-85 | capitalising a family-name word twice changes nothing more |
| Author.FormatFamilyNameIdempotent | format/author.py:35-42 | formatting a family name twice changes nothing more |
| Author.ReplaceDotsSpaced | format/author.py:32 | after `replace('.', '. ')` every dot is followed by a space |
| Author.WordsDotOnlyLast | format/author.py:32 | when dots are followed by whitespace, each word carries a dot only at its end |
| Author.FormatGivenNameWords | format/author.py:24-33 | an unabbreviated given name is the words of the capitalised name, dots followed by a space, joined by single spaces |
| Author.FormatGivenNameTidy | format/author.py:32 | an unabbreviated given name is tidy, and every inner dot is followed by a space |
| Author.CapitalizeOneWord | format/author.py:62-66 | a one-word name is capitalised as that word |
| Author.AbbreviateOneWord | format/author.py:112-116 | a one-word name is abbreviated as that word |
| Author.CapitalizeTwoSegments | format/author.py:76-85 | a two-segment word capitalises each segment and keeps the hyphen |
| Author.AbbreviateTwoSegments | format/author.py:125-129 | a two-segment word abbreviates each segment and keeps the hyphen |
| Author.InitialOfPiece | format/author.py:139-146 | a piece without a dot abbreviates to its first character and a dot |
| Author.FamilyNameOnePiece | format/author.py:35-42 | an all-uppercase family name of one word, without hyphen or apostrophe, is one re-cased piece |
| Author.GivenNameOneWord | format/author.py:24-33 | a given name whose capitalised form is one word without dots is that word, or its abbreviation |
| Author.AbbreviateTwoInitials | format/author.py:105-146 | two hyphenated dot-free segments abbreviate to two initials joined by a hyphen |
| Author.FormatFamilyNameMcCarthy | format/author.py:97-98 | `lstrip('mc')` strips every leading 'm' and 'c', so "MCCARTHY" becomes "McArthy" |
| Author.McDonaldFamily | format/author.py:97-98 | "MCDONALD" becomes "McDonald" |
| Author.McFamilyName | format/author.py:95-98 | an upper-case family name made of a run of "M" and "C" beginning "MC", then another letter and more letters, becomes "Mc", that letter, and the rest in lower case |
| Author.CapitalizeJeanPaul | format/author.py:79-85 | an all-uppercase given name is title-cased segment by segment: "JEAN-PAUL" becomes "Jean-Paul" |
| Author.FormatGivenNameJeanPaul | format/author.py:24-33 | "JEAN-PAUL" formats to "Jean-Paul", or "J.-P." abbreviated |
| Author.AbbreviateJeanPaul | format/author.py:105-146 | "jean-paul" abbreviates to "j.-p.", one initial per hyphen segment |
| Author.FormatNameGivenFirstWords | format/author.py:17-22 | given name first, the words of the result are the formatted given name's words followed by the formatted family name's |
| Author.FormatNameFamilyFirstParts | format/author.py:17-20 | family name first, the first ", " of the result ends the formatted family name and the formatted given name follows it, when the family name holds no ", " itself |
| Author.FormatNameExample | format/author.py:7-22 | ("JEAN-PAUL", "MCDONALD") formats to "McDonald, J.-P." family name first and abbreviated, and to "Jean-Paul McDonald" in full |
| Author.FormatNameLowerCaseExample | format/author.py:7-22 | ("jean-paul", "mcdonald") formats to "mcdonald, j.-p." and "jean-paul mcdonald": lower-case input keeps its case |
| Author.FormatGivenNameLowerJeanPaul | format/author.py:24-33 | "jean-paul" formats to itself, or "j.-p." abbreviated |
| Author.FormatFamilyNameLowerWord | format/author.py:79-80 | a one-word family name without upper-case letters is left as written |
| Author.FormatFamilyNameLowerMcDonald | format/author.py:79-80 | "mcdonald" stays "mcdonald": the Mc rule is not reached |
| Journal.KeepWordChars | format/journal.py:42 | `re.sub('[\W]', '', s)` keeps only word characters and leaves a text of word characters as it is |
| Journal.JournalAbbreviation | format/journal.py:33-44 | a name whose lower-cased word characters are a key of the journal table gives that entry; any other name raises KeyError |
| Journal.FullReplacement | format/journal.py:103-110 | the replacement table's entry for the word, or None when it has none |
| Journal.LongestPrefix | format/journal.py:119-124 | the descending loop finds the longest prefix that is a key, and no longer one is |
| Journal.PrefixReplacement | format/journal.py:112-125 | an answer exists exactly when some prefix is a key, and it is the entry of the longest such prefix; the rest of the word is not kept |
| Journal.LongestSuffix | format/journal.py:134-139 | the ascending loop finds the earliest start of a key suffix, and no earlier start is one |
| Journal.SuffixReplacement | format/journal.py:127-140 | an answer exists exactly when some suffix is a key; it is the head of the word followed by the entry of the longest such suffix |
| Journal.LeftmostInfix | format/journal.py:151-156 | the inner loop finds the leftmost key infix of the given length |
| Journal.LongestInfix | format/journal.py:149-156 | the outer loop finds the longest key infix, leftmost among those of equal length |
| Journal.InfixReplacement | format/journal.py:142-157 | an answer exists exactly when some infix is a key; it is the head before the longest, then leftmost, infix followed by its entry, and the tail after the infix is dropped |
| Journal.TierReplacement | format/journal.py:92-98 | the full, prefix, suffix and infix tiers are tried in that order and the first answer wins; the result is None only when every tier gives None |
| Journal.AbbreviateWord | format/journal.py:83-101 | KeyError exactly when no tier answers; the word itself when the answer is the word with trailing dots, up to case; else the answer |
| Journal.EmitWordTitled | format/journal.py:75-80 | every word appended for one word is title-cased |
| Journal.Emitted | format/journal.py:73-81 | every emitted word is title-cased; at most one word per input word, exactly one when every word has an abbreviation; the last word, and the first when forced, is never dropped |
| Journal.GetAbbreviation | format/journal.py:17-31 | a known journal name gives the journal table's entry |
| Journal.TierFree | format/journal.py:92-98 | when no table entry and no word holds a character, no tier answer holds it |
| Journal.AbbreviateWordFree | format/journal.py:83-101 | an abbreviated word holds no character that neither the word nor any table holds |
| Journal.EmittedFree | format/journal.py:73-81 | the emitted words hold no such character |
| Journal.AbbreviatePartsFree | format/journal.py:65-81 | an abbreviated part holds no such character |
| Journal.AbbreviateSubtitleHyphens | format/journal.py:59-63 | with no hyphen in any table entry, abbreviating a subtitle keeps its number of hyphens |
| Journal.AbbreviateSubtitleNoColon | format/journal.py:46-63 | with no colon in the tables or the subtitle, the abbreviated subtitle has no colon |
| Journal.GetAbbreviationColons | format/journal.py:24-31 | an unknown journal name with no colon in the tables keeps its number of colons: one abbreviated segment per `:` segment |
| MetadataRecord.KeyIndex | metadata.py:117-119 | every one of the thirteen text attributes that the tidy loop visits has exactly one place in the fixed visiting order |
| MetadataRecord.KeyIndexOf | metadata.py:117-119 | the attribute at place `i` of the visiting order has `i` as its place |
| MetadataRecord.With | metadata.py:119 | `setattr` of a text attribute gives that attribute the new value and leaves every other attribute and both name lists as they were |
| MetadataRecord.RecordExt | metadata.py:10-35 | two records that agree on every text attribute and on both name lists are the same record |
| MetadataRecord.OfDictionary | metadata.py:15-35 | the record built from a dictionary holds, for each attribute, the dictionary's value under that attribute's name when present and the empty default otherwise; the same for `author` and `editor` with the empty list |
| MetadataRecord.Metadata.constructor | metadata.py:15-19 | a new object holds the defaults: every text attribute empty, no authors, no editors |
| MetadataRecord.Metadata.FromDictionary | metadata.py:15-35 | the object built from a dictionary holds exactly the record `OfDictionary` describes |
| MetadataRecord.Metadata.SetDefaults | metadata.py:37-55 | after `setDefaults` the object holds the defaults, whatever it held before |
| MetadataRecord.Metadata.SetText | metadata.py:119 | assigning one text attribute changes that attribute only |
| MetadataRecord.GetTidyFields | metadata.py:117-119 | after the tidy loop, each text attribute holds the tidied form of its old value |
| MetadataRecord.TidyTextsDone | metadata.py:117-119 | a record whose text attributes are each the tidied old value, and whose name lists are unchanged, is the tidied record with its old name lists |
| MetadataRecord.TidyPeopleTidy | metadata.py:183-203 | tidying a list of names makes both values of every name tidy |
| MetadataRecord.TidyFieldsTidied | metadata.py:113-215 | the tidy loop leaves every text attribute and both values of every author and editor free of newlines, runs of whitespace and outer whitespace |
| MetadataRecord.TidyPeopleIdempotent | metadata.py:183-203 | tidying a list of names twice gives the same list as tidying it once |
| MetadataRecord.TidyFieldsIdempotent | metadata.py:117-119 | running the tidy loop a second time changes nothing |
| MetadataRecord.Metadata.TidyTexts | metadata.py:117-119 | the loop over the text attributes, in the fixed order, leaves each one tidied and both name lists unchanged |
| MetadataRecord.Metadata.TidyAttributes | metadata.py:117-119 | after the loop every attribute, name lists included, holds its tidied value |
| MetadataRecord.Metadata.TidyList | metadata.py:194-203 | the loop over a list of names returns every name tidied, in order |
| MetadataRecord.ApsFill | metadata.py:227-237 | the APS back-fill changes only the volume and the first page; a non-empty one is kept; with both present or no DOI nothing changes; a filled volume is piece 1 and a filled first page piece 2 of the `.`-split text after the first `/`; a missing piece 1 leaves the record as it was, and a missing piece 2 still keeps a volume already filled |
| MetadataRecord.Metadata.TidyForAps | metadata.py:227-237 | the object's new state is the APS back-fill of its old state |
| MetadataRecord.SrepPiece | metadata.py:245 | there is no piece exactly when the DOI has no `/srep`; otherwise the piece is the text after the first `/srep` up to the next `/srep` or the end |
| MetadataRecord.NatureFill | metadata.py:239-247 | the Nature back-fill changes only the first page, and only when it is empty and the DOI has a `/srep` piece, which it then holds |
| MetadataRecord.Metadata.TidyForNature | metadata.py:239-247 | the object's new state is the Nature back-fill of its old state |
| MetadataRecord.ByPublisher | metadata.py:217-225 | an American Physical Society publisher, ignoring case and spaces, gets the APS back-fill; otherwise a Nature Publishing one gets the Nature back-fill; any other record is unchanged; only an empty volume or first page can change |
| MetadataRecord.Metadata.TidyByPublisher | metadata.py:217-225 | the object's new state is the publisher back-fill of its old state |
| MetadataRecord.Metadata.Tidy | metadata.py:113-120 | the object's new state is the tidied record with the publisher back-fill applied afterwards |
| MetadataRecord.ApsFillIdempotent | metadata.py:227-237 | a second APS back-fill fills nothing more |
| MetadataRecord.NatureFillIdempotent | metadata.py:239-247 | a second Nature back-fill fills nothing more |
| MetadataRecord.ByPublisherIdempotent | metadata.py:217-247 | the back-fill keeps the publisher, so a second run fills nothing more |
| MetadataRecord.ByPublisherOutsideFill | metadata.py:217-247 | the back-fill keeps tidy every attribute it does not write |
| MetadataRecord.ByPublisherFills | metadata.py:217-247 | after the back-fill the volume is unchanged or was empty and is now DOI piece 1; the first page is unchanged or was empty and is now DOI piece 2 or the `/srep` piece |
| MetadataRecord.TidyRecordTidied | metadata.py:113-120 | after `tidy` every attribute but the volume and the first page is tidy, and those two hold their tidied value unless it was empty and the back-fill took a piece of the tidied DOI |
| MetadataRecord.TidyRecord | metadata.py:113-120 | `tidy` tidies every attribute and both lists of names; the publisher back-fill afterwards writes only the volume and the first page, and only where tidying left them empty |
| MetadataRecord.TidyFieldsOutside | metadata.py:117-119 | the tidy loop makes tidy every attribute the back-fill does not write |
| MetadataRecord.SpacedDoiPieces | metadata.py:233 | the DOI `a/b. 1.2` splits into the pieces `b`, ` 1` and `2` |
| MetadataRecord.TidyWord | metadata.py:205-215 | a single word without whitespace is left unchanged by tidying |
| MetadataRecord.KeyOfKey | metadata.py:221-222 | a lower-case publisher without spaces is its own lookup key and contains itself at index 0 |
| MetadataRecord.TidyFieldsFixed | metadata.py:117-119 | a record without names whose text attributes tidying leaves alone is its own tidied record |
| MetadataRecord.ApsExampleOnce | metadata.py:227-237 | the first `tidy` of an APS record with the DOI `a/b. 1.2` and no volume or first page fills the volume ` 1` and the first page `2` |
| MetadataRecord.ApsExampleTwice | metadata.py:113-120 | a second `tidy` of the once-tidied record trims the volume ` 1` to `1` |
| MetadataRecord.TidyRecordNotIdempotent | metadata.py:113-120 | on that APS record one `tidy` leaves the volume ` 1` and a second `tidy` changes it to `1`, so `tidy` is not idempotent |
| MetadataRecord.PagesAsString | metadata.py:402-418 | with `firstPageOnly` a first page alone; otherwise both pages joined by `-`; with one page only that one; the result is empty exactly when both pages are |
| MetadataRecord.NameEntries | metadata.py:350-368 | every name is formatted in order, unless `maxAuthors` is above one and below the number of names; then only the first `maxAuthors - 1` names are formatted, followed by `et al.` |
| MetadataRecord.NameString | metadata.py:350-368 | no names give the empty string |
| MetadataRecord.NameStringEnds | metadata.py:350-368 | the name string starts with its first entry, the first name formatted, and ends with its last entry: `et al.` when it truncates, the last name formatted otherwise |
| MetadataRecord.AuthorsAsString | metadata.py:321-333 | no authors give no entry; otherwise one entry, the authors' name string followed by a comma |
| MetadataRecord.FormattedNames | metadata.py:362-367 | the first `n` names, each formatted by `formatName`, in order |
| MetadataRecord.FormattedNamesNext | metadata.py:362-367 | formatting one more name appends that name's formatted form |
| MetadataRecord.Metadata.FormatNameString | metadata.py:350-368 | the loop with its early `et al.` exit returns the entries `NameEntries` describes, joined by `, ` |
| MetadataRecord.EditorsAsString | metadata.py:335-348 | no editors give no entry; one editor gets ` (Ed.),` after the names, several get ` (Eds.),` |
| MetadataRecord.StyleEntries | metadata.py:122-144 | a record with a journal uses the journal style; otherwise an arXiv identifier found in the URL selects the arXiv style; otherwise the generic style |
| MetadataRecord.JournalEntries | metadata.py:249-274 | the journal style has at most five words before the year: it starts with the authors when there are any, holds the journal name when there is one, and ends with the pages when there are any |
| MetadataRecord.ArxivEntries | metadata.py:276-294 | the arXiv style has at most three words before the year and always ends with `arXiv:` and the identifier; it starts with the authors when there are any, and holds the title when forced |
| MetadataRecord.AnyEntries | metadata.py:296-319 | the generic style starts with the authors, or else with the editors; it ends with the publisher when there is one, and is empty when there are no names, title or publisher |
| MetadataRecord.ReferenceString | metadata.py:122-144 | `toReferenceString` picks the journal style when there is a journal, else the arXiv style when the URL holds an arXiv identifier, else the generic style, and puts the year after it |
| MetadataRecord.ReferenceStringEndsWithYear | metadata.py:122-144 | with a year, every style of reference string ends with the year in parentheses |
| MetadataRecord.StyleEntriesStartWithNames | metadata.py:262-310 | with authors, the first entry of every style starts with the formatted authors; without authors, the generic style's first entry starts with the editors |
| MetadataRecord.ReferenceStringStartsWithNames | metadata.py:122-144 | with authors, the reference string starts with the formatted authors; without authors, a generic reference starts with the formatted editors |
| MetadataRecord.UnformattedAttributesByKey | metadata.py:153-163 | reading the eleven attributes through `getattr` gives the same entries as reading the fields |
| MetadataRecord.AddValueCovers | metadata.py:370-379 | appending a value keeps every entry non-empty and keeps every non-empty value seen so far among the entries |
| MetadataRecord.AttributeEntriesCover | metadata.py:152-163 | the entries from the eleven attributes are all non-empty and include every non-empty one of them |
| MetadataRecord.UnformattedEntriesComplete | metadata.py:146-167 | the unformatted string lists no empty entry, includes every non-empty attribute, every author and editor as `given family`, and the pages when there are any |
| MetadataRecord.UnformattedString | metadata.py:146-167 | the unformatted string is empty exactly when the record has no attribute, name or page to list |
| MetadataRecord.UnformattedEmpty | metadata.py:146-167 | the entries joined with `, ` are empty exactly when there is nothing to list |
| MetadataRecord.Metadata.AddValueToList | metadata.py:370-379 | the list gains the attribute's value at its end when that value is non-empty, and is unchanged otherwise |
| MetadataRecord.Metadata.AddNamesToList | metadata.py:381-390 | the list gains one `given family` entry per name, in order |
| MetadataRecord.Metadata.AddPagesToList | metadata.py:392-400 | the list gains the page string at its end when it is non-empty |
| MetadataRecord.Metadata.ToUnformattedString | metadata.py:146-167 | the method returns the entries that `UnformattedEntriesComplete` characterises, joined by `, ` |
| Crossref.FullCitation | lookup/crossref.py:140 | a query result has a citation exactly when it has a `fullCitation` entry holding text, and the citation is that text |
| Crossref.ScoreOf | lookup/crossref.py:140 | a result gets a score only when it has a citation, and the score lies between 0 and 1 |
| Crossref.ScoredFromCons | lookup/crossref.py:140 | scoring one more result in front keeps every candidate paired with its result and its position |
| Crossref.ScoreItems | lookup/crossref.py:140 | the comprehension pairs every result from position `i` on with its score and position; a failure is the failure of some result's score |
| Crossref.Scored | lookup/crossref.py:140 | a list of results is scored item by item; any other answer, which iterates over texts without citations, leaves no candidates |
| Crossref.Insert | lookup/crossref.py:141 | inserting a candidate adds exactly that candidate to the others |
| Crossref.SortByScore | lookup/crossref.py:141 | sorting is a permutation of the candidates |
| Crossref.InsertRanked | lookup/crossref.py:141 | inserting a candidate from a later position into a ranked list keeps it ranked: higher scores first, equal scores in input order |
| Crossref.SortRanked | lookup/crossref.py:141 | `sorted(..., reverse = True)` by score, which is stable, ranks the candidates by descending score with ties in input order |
| Crossref.PositionOf | lookup/crossref.py:141 | a candidate of the sorted list sits at some position of it |
| Crossref.NumberedInOrder | lookup/crossref.py:140 | the candidates of the comprehension come in input order |
| Crossref.SortedLength | lookup/crossref.py:141 | sorting keeps the number of candidates |
| Crossref.RankedHead | lookup/crossref.py:141-143 | the ranking starts with the earliest result of highest score |
| Crossref.RankedSecond | lookup/crossref.py:141-145 | the second of the ranking is another result, whose score is the highest among all the others |
| Crossref.Picked | lookup/crossref.py:162 | a reply of 0 picks nothing; a positive reply `n` picks the `n`th result; a negative one counts from the end, as Python indexing does |
| Crossref.Choice | lookup/crossref.py:151-164 | the prompt loop either picks a result or ends the program with `sys.exit` when the replies run out |
| Crossref.ChoiceFirstValid | lookup/crossref.py:159-164 | the program exits exactly when no reply is accepted; otherwise the first accepted reply decides the pick |
| Crossref.AskUser | lookup/crossref.py:151-164 | the loop over the replies returns the choice `Choice` describes |
| Crossref.RatioBelow | lookup/crossref.py:145 | a lower second score keeps the ratio to the best below the bound |
| Crossref.DecideCases | lookup/crossref.py:142-149 | of the ranked candidates, the best is accepted when it clears the minimum and, with several, leads every other by the ratio; a best score of 0 that clears the minimum divides by zero; otherwise the user decides |
| Crossref.DecideByBest | lookup/crossref.py:140-149 | the same decision, stated on the unsorted candidates and the earliest best one |
| Crossref.Decide | lookup/crossref.py:142-149 | with no results the answer is None; a single result reaching the minimum is accepted; a best score below the minimum leaves the choice to the user; any other outcome than asking accepts the top result or, with several, divides by a best score of 0 |
| Crossref.BestQueryResult | lookup/crossref.py:129-149 | a failure to score the results propagates; once scored, the only failures are the division by a zero best score and the exit from the prompt |
| Crossref.BestQueryResultDecides | lookup/crossref.py:129-149 | `_getBestQueryResult` accepts the earliest best result when it clears both thresholds, fails with ZeroDivisionError when a best score of 0 reaches the minimum, and otherwise asks the user about the results in their unsorted order |
| Crossref.BestQueryResultEmpty | lookup/crossref.py:147-149 | with no scored results the answer is None and nobody is asked |
| Crossref.DoiForCitation | lookup/crossref.py:93-112 | a DOI found for a citation is a well-formed DOI; a failure is the query's own, the program's exit, or `Could not match citation to DOI` |
| Crossref.GetDoi | lookup/crossref.py:71-91 | a DOI in the lookup text is returned without a query; otherwise the DOI comes from the citation query; a result is always a well-formed DOI |
| Crossref.ValueOf | lookup/crossref.py:228-232 | the value stored for a key is the answer's entry, or its first element when it is a list; nothing is stored when the key is missing or the list is empty |
| Crossref.ValueSaved | lookup/crossref.py:218-234 | `_saveValue` changes only its attribute, which becomes the text found; a stored non-text value is reported; nothing found leaves the record unchanged |
| Crossref.Chars | lookup/crossref.py:245 | iterating over a text gives its characters, each as a one-character text |
| Crossref.IsbnOf | lookup/crossref.py:247 | only a text holds an ISBN, and the ISBN found has 10 or 13 digits |
| Crossref.Found | lookup/crossref.py:245-250 | what `isbn.extract` gives for each candidate, in order |
| Crossref.FirstFound | lookup/crossref.py:245-250 | the first position from `i` with an ISBN, or none exactly when no position from `i` has one |
| Crossref.NoIsbnInChars | lookup/crossref.py:244-245 | no character of a text holds an ISBN |
| Crossref.IsbnFromText | lookup/crossref.py:244-250 | a text in place of the list of ISBNs leaves the record unchanged |
| Crossref.RemoveCharShorter | lookup/crossref.py:247 | removing a character never lengthens a text |
| Crossref.IsbnSaved | lookup/crossref.py:236-252 | `_saveIsbn` changes only the ISBN, to 10 or 13 digits that are the ISBN of the first candidate holding one; with none, the record is unchanged |
| Crossref.IsbnValues | lookup/crossref.py:244 | an answer without `ISBN` gives no candidates |
| Crossref.IsbnSavedFirst | lookup/crossref.py:245-248 | the first candidate holding an ISBN decides the stored ISBN |
| Crossref.NoneInExtend | lookup/crossref.py:245-250 | one more candidate without an ISBN extends the run without one |
| Crossref.IsbnSavedNone | lookup/crossref.py:245-252 | with no candidate holding an ISBN the record is unchanged |
| Crossref.FirstFoundAt | lookup/crossref.py:245-248 | the first position with an ISBN is the one before which none has one |
| Crossref.TestIsbn | lookup/crossref.py:246-250 | the loop body returns the ISBN extracted from one candidate, or none when extraction fails |
| Crossref.SaveIsbn | lookup/crossref.py:236-252 | the object's new state is the record `IsbnSaved` describes |
| Crossref.YearSaved | lookup/crossref.py:254-264 | `_saveYear` changes only the year: whenever the first date part exists and `str` of it is defined, the year becomes that text; a missing part or a list or dictionary in its place leaves the record unchanged; a number becomes its decimal text, and a non-negative one is all digits with that value |
| Crossref.SaveYear | lookup/crossref.py:254-264 | the object's new state is the record `YearSaved` describes |
| Crossref.TitleParts | lookup/crossref.py:291-296 | the parts are the first title, then the first subtitle, and collection stops at the first one missing |
| Crossref.Texts | lookup/crossref.py:298 | the texts of the parts, in order |
| Crossref.TitleSaved | lookup/crossref.py:284-300 | `_saveTitle` changes only the title: the title alone, or title `: ` subtitle, or empty when there is no title; a non-text part makes the join fail and leaves the record unchanged |
| Crossref.SaveTitle | lookup/crossref.py:284-300 | the object's new state is the record `TitleSaved` describes |
| Crossref.PagesSaved | lookup/crossref.py:266-282 | `_savePages` changes only the two pages: for a text page range, a non-empty first `-` piece becomes the first page and a non-empty second piece the last page; these are the only changes; a missing or non-text `page` leaves the record unchanged |
| Crossref.PagesRoundTrip | lookup/crossref.py:266-282 | a range `a-b` of two non-empty pages is stored as `a` and `b` and rendered back as `a-b` |
| Crossref.PagesSingle | lookup/crossref.py:274-278 | a single page becomes the first page and leaves the last page alone |
| Crossref.SavePages | lookup/crossref.py:266-282 | the object's new state is the record `PagesSaved` describes |
| Crossref.Longest | lookup/crossref.py:311-313 | the position of the earliest longest length |
| Crossref.Lengths | lookup/crossref.py:312 | the length of every container title, in order |
| Crossref.LongestAt | lookup/crossref.py:309-313 | the index the loop ends at: for a list of at least two titles, the earliest longest when every title has a length and TypeError otherwise; 0 for a text, a list of fewer than two titles or a dictionary of fewer than two entries; KeyError for a larger dictionary; TypeError for a value without a length |
| Crossref.LongestIndex | lookup/crossref.py:309-313 | the loop over `range(1, len(journals))` computes the position `LongestAt` describes |
| Crossref.LongestStep | lookup/crossref.py:312-313 | one step of the loop keeps the earliest longest of the titles scanned so far |
| Crossref.LengthsSnoc | lookup/crossref.py:312 | the lengths of one more title extend the lengths by its length |
| Crossref.LongestSnoc | lookup/crossref.py:312-313 | the earliest longest of one more length moves to it only when it is strictly longer |
| Crossref.JournalSaved | lookup/crossref.py:302-317 | `_saveJournal` changes only the journal. A missing container title propagates its KeyError or TypeError, and so does a failing loop. Otherwise the element at the index the loop picks is read: a text becomes the journal, a non-text value is reported, and an index out of range leaves the record unchanged |
| Crossref.JournalLongest | lookup/crossref.py:302-317 | of a list of texts, the stored journal is one of them, as long as any, and the earliest of that length |
| Crossref.SaveJournal | lookup/crossref.py:302-317 | the object's new state is the record `JournalSaved` describes, and a failure leaves it alone |
| Crossref.Named | lookup/crossref.py:328-344 | `filter(len, ...)` keeps, in order, the entries with both a `given` and a `family` part; all kept when all have them, none when none does |
| Crossref.NamedFromItems | lookup/crossref.py:330 | the kept entries are entries of the list, none more often than there |
| Crossref.NamedAppend | lookup/crossref.py:330 | filtering two lists one after the other keeps the order of both |
| Crossref.Persons | lookup/crossref.py:342 | each kept entry becomes a name with its given and family parts |
| Crossref.NamesSaved | lookup/crossref.py:319-332 | `_saveNames` replaces only its list of names. A list gives its named entries in order exactly when every kept entry has text parts, and otherwise reports a non-text value and leaves the record unchanged. A text or a dictionary gives an empty list. A missing key or a value that cannot be iterated leaves the record unchanged |
| Crossref.SaveNames | lookup/crossref.py:319-332 | the object's new state is the record `NamesSaved` describes |
| Crossref.SaveValue | lookup/crossref.py:218-234 | the object's new state is the record `ValueSaved` describes |
| Crossref.SaveAttributes | lookup/crossref.py:207-214 | the six values and two lists of names stored in the order of `_saveMetadata` |
| Crossref.SaveFront | lookup/crossref.py:202-206 | the ISBN, year, title, pages and journal stored in order; the journal's failure ends the run |
| Crossref.SaveMetadataResult | lookup/crossref.py:193-216 | a record read from an answer is tidy outside the two fields the back-fill writes; a failure is a missing key, a type error, or `tidy` failing on a stored non-text value |
| Crossref.SaveMetadataFrom | lookup/crossref.py:200-216 | the record read from an answer is the tidied record the mappers leave, unless a non-text value was stored |
| Crossref.SaveMetadata | lookup/crossref.py:193-216 | the method builds a new object holding exactly the record `SaveMetadataResult` describes, or fails with its error |
| Crossref.SearchResult | lookup/crossref.py:22-54 | a record found by `search` is tidy outside the back-filled fields |
| Crossref.MetadataFromDoi | lookup/crossref.py:56-69 | a record fetched for a DOI is tidy outside the back-filled fields, and a text without a DOI fails with the extraction's error |
| Crossref.SearchByDoiSkipsQuery | lookup/crossref.py:82-84 | with a DOI in the lookup text, the free-text query and the user's replies have no effect on the result |
| Crossref.Search | lookup/crossref.py:22-54 | the method returns a new object holding the record `SearchResult` describes, or its error |
| Crossref.GetMetadataFromDoi | lookup/crossref.py:56-69 | the method returns a new object holding the record `MetadataFromDoi` describes, or its error |
| Arxiv.Tagged | lookup/arxiv.py:63-64 | the positions of exactly the children whose tag ends with the suffix, in increasing order |
| Arxiv.First | lookup/arxiv.py:96-97 | the first child whose tag ends with the suffix, with no earlier one tagged; none exactly when no child is tagged |
| Arxiv.FirstAt | lookup/arxiv.py:96-97 | a tagged child with no tagged child before it is the first |
| Arxiv.EntryOf | lookup/arxiv.py:53-68 | `_getEntry` fails only with `Multiple entries in result` |
| Arxiv.TaggedNone | lookup/arxiv.py:63-64 | with no tagged child there are no positions |
| Arxiv.TaggedOne | lookup/arxiv.py:63-64 | with one tagged child its position is the only one |
| Arxiv.EntryOfNone | lookup/arxiv.py:62-68 | with no entry among the children the entry is None |
| Arxiv.EntryOfOne | lookup/arxiv.py:62-68 | a single entry among the children is returned |
| Arxiv.EntryOfTwo | lookup/arxiv.py:65-66 | two entries among the children raise `Multiple entries in result` |
| Arxiv.GetEntry | lookup/arxiv.py:53-68 | the loop over the children returns what `EntryOf` describes |
| Arxiv.ValueSaved | lookup/arxiv.py:87-102 | `_saveValue` changes only its attribute, to the text of the first child with that tag; with no such child nothing changes; a child without text stores None, which is reported |
| Arxiv.SaveValue | lookup/arxiv.py:87-102 | the object's new state is the record `ValueSaved` describes |
| Arxiv.YearSaved | lookup/arxiv.py:104-118 | `_saveYear` changes only the year, to the text of the first `updated` child up to its first `-`; a child without text leaves the year alone |
| Arxiv.SaveYear | lookup/arxiv.py:104-118 | the object's new state is the record `YearSaved` describes |
| Arxiv.NameOf | lookup/arxiv.py:134-147 | `_getName` gives None exactly when there is no `name` child, `splitName` of the first `name` child's text when it has one, and AttributeError when that child has no text |
| Arxiv.AddedAll | lookup/arxiv.py:127-131 | one addition per child, in document order |
| Arxiv.AddedAllAt | lookup/arxiv.py:127-131 | the addition at position `j` is what child `j` adds |
| Arxiv.People | lookup/arxiv.py:130 | the people a run of additions appends; there are never more than the additions |
| Arxiv.AnyNoneAt | lookup/arxiv.py:130 | some addition is None exactly when some position holds a None |
| Arxiv.PeopleConcat | lookup/arxiv.py:127-131 | appending distributes over two runs of additions |
| Arxiv.PeopleAll | lookup/arxiv.py:127-131 | when every addition is a person, the people appended are exactly those, in order |
| Arxiv.AddedStep | lookup/arxiv.py:127-131 | one more child contributes its own addition at the end |
| Arxiv.PeopleSnoc | lookup/arxiv.py:130 | one more addition appends what it adds and adds a None exactly when it is one |
| Arxiv.AuthorsSaved | lookup/arxiv.py:120-131 | `_saveAuthors` changes only the authors, appending each author child's name in document order; the record stays text exactly when no author lacks a `name` child |
| Arxiv.AuthorsInOrder | lookup/arxiv.py:120-147 | when each author child (at the positions `Tagged` gives) has a first `name` child with text, the old authors are followed by one person per author child, `splitName` of that text, in document order, and the record stays text |
| Arxiv.Added | lookup/arxiv.py:127-147 | a child that is not an author adds nothing; an author adds `splitName` of its first `name` child's text, None when it has no `name` child, and nothing when that child has no text, because the error is swallowed |
| Arxiv.PickedAt | lookup/arxiv.py:127-128 | the values picked for the author children are those at the author positions, one each, in order |
| Arxiv.PeopleOfAuthors | lookup/arxiv.py:127-147 | when every author child has a named `name` child, the loop appends exactly the split names of the author children, and no None |
| Arxiv.AuthorWithoutName | lookup/arxiv.py:127-147 | an author child without a `name` child appends None, so the record is no longer text |
| Arxiv.AddAuthor | lookup/arxiv.py:128-132 | one pass of the loop appends what the child adds and reports whether it appended None |
| Arxiv.AddAuthors | lookup/arxiv.py:127-131 | the loop appends the people of all the children and changes nothing else |
| Arxiv.SaveAuthors | lookup/arxiv.py:120-131 | the object's new state is the record `AuthorsSaved` describes |
| Arxiv.TidyKeepsPublisher | lookup/arxiv.py:77-84 | `tidy` keeps the publisher `arXiv.org` |
| Arxiv.EntryRecord | lookup/arxiv.py:70-85 | a record made from an entry has publisher `arXiv.org` and is tidy outside the back-filled fields; a missing entry fails with TypeError, a stored None with AttributeError |
| Arxiv.EntrySaved | lookup/arxiv.py:77-83 | the mappers keep the publisher `arXiv.org` |
| Arxiv.SaveMetadataFromEntry | lookup/arxiv.py:70-85 | the method builds a new object holding the record `EntryRecord` describes, or fails with its error |
| Arxiv.RootRecord | lookup/arxiv.py:38-51 | a record read from the parsed answer has publisher `arXiv.org` and is tidy outside the back-filled fields; a failure is multiple entries, TypeError or AttributeError |
| Arxiv.SaveMetadata | lookup/arxiv.py:38-51 | the method builds a new object holding the record `RootRecord` describes, or fails with its error |
| Arxiv.SearchResult | lookup/arxiv.py:12-26 | every failure of `search` is `Could not match query to arXiv`, a lookup text without an arXiv identifier fails, and a record found has publisher `arXiv.org` and is tidy outside the back-filled fields |
| Arxiv.Fetched | lookup/arxiv.py:21-24 | the body of the `try` fails on a text without an identifier, and its record has publisher `arXiv.org` |
| Arxiv.Search | lookup/arxiv.py:12-26 | the method returns a new object holding the record `SearchResult` describes, or the one ValueError |
| Reference.ByLookup | reference.py:23-35 | only an exception that the `except` clauses do not catch escapes; at most two records are gathered; when arXiv.org found one it comes first, and otherwise there is at most one; every record is an answer of arXiv.org for the input or of CrossRef.org for some query |
| Reference.FromArxiv | reference.py:37-47 | the arXiv.org record, as a one-element list; an empty list when the search raised an exception that is caught; any other error escapes |
| Reference.Queries | reference.py:61-67 | the CrossRef.org queries in order: the unformatted string of each record gathered so far, then the input |
| Reference.TryQueries | reference.py:61-69 | the first query answered gives a one-record list; a caught exception moves on to the next query; the list is empty exactly when every query missed; any other error escapes |
| Reference.FromCrossref | reference.py:49-69 | at most one record, an answer of CrossRef.org for some query; only an uncaught exception escapes |
| Reference.AnswerOfSomeQuery | reference.py:61-69 | a record found by the queries is CrossRef.org's answer to one of them |
| Reference.SkipMissed | reference.py:61-65 | queries that missed are skipped without effect |
| Reference.FirstAnswer | reference.py:61-65 | after queries that missed, the next query's record is the answer, and its uncaught error escapes |
| Reference.CrossrefFirstSuccess | reference.py:61-65 | the first record gathered whose unformatted string CrossRef.org answers decides the CrossRef.org record, after all earlier ones missed |
| Reference.CrossrefInputFallback | reference.py:66-69 | when every record gathered so far missed, the input itself is searched on CrossRef.org, and a caught exception gives an empty list |
| Reference.NoArxivRecord | reference.py:9-35 | without an arXiv.org record, `getMetadata` is the CrossRef.org search of the input alone |
| Reference.TryQueriesAgree | reference.py:61-69 | two CrossRef.org searches that agree at the given thresholds give the same answer to the queries |
| Reference.ThresholdsPassedThrough | reference.py:9-21 | `getMetadata` depends on CrossRef.org only through its searches at the thresholds it is given |
| Reference.GetMetadata | reference.py:9-21 | only an exception the lookup does not catch escapes, and when arXiv.org finds a record it is the first one returned |
| Reference.TidyAnswers | reference.py:33-35 | when both services return tidy records, every record gathered is tidy |
| Reference.ModelledServices | reference.py:9-69 | with the arXiv.org and CrossRef.org searches of the model, only the exit from an interrupted prompt escapes, every record gathered is tidy outside the back-filled fields, and the first is an `arXiv.org` record whenever arXiv.org answered |
| JsonValue.Lookup | lookup/crossref.py:201 | `value[key]` succeeds exactly on a dictionary holding the key, with that entry; otherwise KeyError on a dictionary and TypeError on any other value |
| JsonValue.Len | lookup/crossref.py:311-312 | `len` is defined exactly on texts, lists and dictionaries, and raises TypeError otherwise |
| JsonValue.ElemAt | lookup/crossref.py:230 | indexing succeeds within a list or a text, giving the element or the one-character text; otherwise IndexError, KeyError on a dictionary, or TypeError |
| JsonValue.DigitChar | lookup/crossref.py:262 | each decimal digit value has a digit character |
| JsonValue.NatText | lookup/crossref.py:262 | `str` of a natural number is a non-empty run of digits without a leading zero |
| JsonValue.NatTextValue | lookup/crossref.py:262 | reading back `str` of a natural number gives the number |
| JsonValue.IntText | lookup/crossref.py:262 | `str` of a negative integer is `-` followed by the digits of its absolute value, and of any other integer its digits |
| JsonValue.StrOf | lookup/crossref.py:262 | `str` of a text is the text and of a number its decimal text; lists and dictionaries are not rendered |

## Where the code and its documentation differ

The model follows the code in each of these cases.

- `tidy` is documented as idempotent, but it is not.
  - The APS back-fill copies pieces of the DOI after `tidy` has cleaned every attribute, so
    a DOI such as `a/b. 1.2` leaves the volume ` 1`, which a second `tidy` trims to `1`.
  - `MetadataRecord.TidyRecordNotIdempotent` proves this on that record.
  - `MetadataRecord.TidyFieldsIdempotent` proves the whitespace pass alone idempotent, and
    `MetadataRecord.ByPublisherIdempotent` proves the same for the back-fill alone.
- The infix tier of the journal abbreviation is documented as preferring matches nearer the
  end of the word. The code takes the leftmost infix among those of the longest length, and
  drops the rest of the word (format/journal.py:149-155).
- A word without an abbreviation is documented as kept only when it is the first word of the
  first segment or the last word of its segment. The code keeps the first word of every
  hyphen part (format/journal.py:60-62,79).
- `lstrip('mc')` and `lstrip('mac')` strip a set of characters, not a prefix. So "MCCARTHY"
  becomes "McArthy" (`Author.FormatFamilyNameMcCarthy`).
- `formatName("jean-paul", "mcdonald", True, True)` is documented as giving "McDonald, J.-P.".
  The code re-cases only segments that are entirely upper-case and keeps every other segment
  as written (format/author.py:79-80). So the lower-case input gives "mcdonald, j.-p."
  (`Author.FormatNameLowerCaseExample`). The documented result comes from "JEAN-PAUL" and
  "MCDONALD" (`Author.FormatNameExample`).
- The prompt offers the unsorted query results (lookup/crossref.py:148). A reply is accepted
  whenever Python can index with it, negative replies included.
- `crossref.search` is documented as raising only ValueError (lookup/crossref.py:42). Its
  `except Exception, e: raise` re-raises whatever `_saveMetadata` raises (lookup/crossref.py:53-54).
  - A reply without `message` raises KeyError or TypeError (lookup/crossref.py:200).
  - A failing container-title loop in `_saveJournal` raises KeyError or TypeError
    (lookup/crossref.py:302-317).
  - `tidy` on a stored value that is not text raises AttributeError (lookup/crossref.py:215).
  - An interrupted prompt ends the program with SystemExit.
  - `Crossref.SaveMetadataResult` and `Crossref.SearchResult` let these errors through.

## Left out

- Web requests and URL building are not modelled. `runQuery` and `fetch` stand for
  `_runQuery`, the `requests.get` of `_getMetadataFromDoi` and `_getMetadataFromArxivId`
  (lookup/crossref.py:114-127, 66-67; lookup/arxiv.py:28-36).
- `ElementTree.fromstring` is not modelled. The arXiv `fetch` returns the parsed root element.
- Interactive input is not modelled: `getDataFromUser`, `getValueFromUser`, `getPeopleFromUser`
  and `getPersonFromUser` (metadata.py:57-111).
  - The console output of `_promptForBestResult` is not modelled either.
  - The replies to the prompt are a finite sequence. A line that is not an integer is `None`.
  - Running out of replies stands for the KeyboardInterrupt that makes the prompt call
    `sys.exit(1)`.
  - The `user` function gives the same replies whenever it is shown the same lookup and
    candidates.
  - `_askForManualEntry` is an empty stub that nothing calls.
- Loading the pickled journal dictionaries is not modelled. They are the read-only parameter
  `Journal.Tables`.
- Unicode is not modelled. Character classes (`\w`, `\s`, upper and lower case, `title`) are
  ASCII. The NFKD normalisation of `crossref.search` is the identity: with the byte strings
  of Python 2 it raises and is skipped.
- Floating point is not modelled. Overlap scores, the thresholds and the ratio of the second
  score to the best are exact reals. JSON numbers are integers; a JSON float has no
  counterpart.
- The regular-expression engine is not modelled, only the five patterns of the core.
- Aliasing is not modelled. `_tidyList` and `_tidyDict` update the name lists in place; the
  model replaces the lists by their tidied values. A list that is shared with the caller is
  therefore not tidied for the caller too.
- `tidy` visits the attributes in the order of `vars(self)`. The model visits them in the fixed
  order `MetadataRecord.AllKeys`. Each attribute is tidied on its own, so the order does not
  change the result.
- `Crossref.SaveMetadataResult` reports a stored value that is not text as AttributeError.
  Python raises that for a number or None, but tidies a list or a dictionary stored as a
  title or a volume and keeps it.
- `Crossref.IsbnSaved` does not test the keys of a dictionary given in place of the ISBN list;
  Python iterates over those keys. A dictionary gives no ISBN here.
- `Crossref.YearSaved` leaves the year alone when the first date part is a list or a
  dictionary; Python stores its `str`, which is Python syntax and is not modelled.
- `Arxiv.AuthorsSaved` does not store an author without a `name` child. Python appends None,
  and the later `tidy` then fails with AttributeError. The model records that the record is no
  longer text, which gives the same AttributeError.
- `Reference.GetMetadata` takes the two thresholds as parameters. The Python defaults are
  `Crossref.DefaultAutoSaveMinimum` and `Crossref.DefaultAutoSaveMaximum` (lookup/crossref.py:17,20).
