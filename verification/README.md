# Verified model of the backend's state and text cores

This project models, in Dafny, the parts of the backend that keep state or transform text, and proves what
they keep and promise. `dafny verify dfyconfig.toml` checks the whole project.

| file | what it models |
|---|---|
| `Translations.dfy` | languages, groups, translations and their history; create and update |
| `TranslationFiles.dfy` | the JSON importer and exporter |
| `TranslationRuns.dfy` | runs of create, update and import requests |
| `TranslationRoundTrip.dfy` | export followed by import |
| `TranslationRows.dfy`, `TranslationImport.dfy` | what a create, an update and an import leave and report |
| `TranslationStats.dfy` | statistics and missing keys |
| `AcceptLanguage.dfy`, `HeaderParts.dfy` | language negotiation of the middleware; qualities and primary codes |
| `FilterTree.dfy`, `FilterDict.dfy` | bracketed query parameters: as values, and as dictionary objects with a cursor |
| `FilterSql.dfy`, `Like.dfy` | filters compiled to SQL predicates, three-valued logic, LIKE (ISO/IEC 9075-2:2003, section 8.5) |
| `FilterMeaning.dfy`, `FilterTable.dfy` | what compiled filters select, against the documented table of operators; the table name by name |
| `FilterQuery.dfy` | from the query string to the selected rows |
| `RateLimit.dfy`, `RateLimitReached.dfy`, `RateLimitClients.dfy` | the two fixed-window rate limiters; runs that reach the bound; which requests count, and for whom |
| `Lockout.dfy` | failed logins and the lock |
| `Conversations.dfy` | messages: conversation list, opening a thread |
| `FaithStore.dfy`, `FaithHistory.dfy` | sermons, likes, comments, questions, answers, friendships; what stands after a run |
| `Codegen.dfy` | adding and removing a router in main.py |
| `ByteRange.dfy`, `RangeParts.dfy` | HTTP ranges of the file preview; numbers and unreadable headers |
| `AuditGauges.dfy` | audit metrics beside the audit table |
| `Text.dfy`, `TextLaws.dfy` | Python's string operations, and what they compute |
| `Folds.dfy`, `LastWrites.dfy`, `Options.dfy` | folds, values along a run, optional values |

A database table is a sequence or map of rows. Each request is one atomic step. The clock, the drawn identifiers,
whether a password is right, whom a refresh token names, and the order in which a database lists rows that its
query does not order are inputs. An operation that changes state is a method of a class (or a loop over a class's
tables) proved equal to a function of the old state; the laws are proved about those functions and about runs of
them.

Where code and documentation differ, the model follows the code:

- The operator table of `apply_filters` lists `$eqi`, `$nei`, `$containsi`, `$notContainsi`, `$startsWithi`,
  `$endsWithi` and `$not` (app/crud_base.py:80-114). The code has no branch for them, nor for `$or` and `$and` below a
  field, so they select every row. For the first six `FilterMeaning.OperatorExactly` says that they never mean what
  the table says; for the joining names `JoinExactly` says exactly when they do, and `NotOneExactly`, `AndNever` and
  `OrTestsExactly` in terms a caller can check. The table does not define the joining names: they are read as all, one,
  and not all of the filters they join.
- `parse_filters` announces `$and` and `$or` (app/crud_base.py:47-48). It builds dictionaries where `apply_filters`
  wants lists, so a non-empty `$or` or `$and` from a query string always raises: `FilterQuery.QueryRaises`,
  `OrRaises`.
- A `$or` list that is empty, or holds empty members beside others, is not the disjunction of its members, because
  SQLAlchemy drops empty conjunctions: `FilterMeaning.OrExactly`.
- Filter values are pasted into LIKE patterns unescaped, so `%`, `_` and the escape character keep their special
  meaning; `Like` proves that the documented meaning holds exactly without them.
- `bytes=-n` serves the first n + 1 bytes, and a start past the end is answered with 206 and a negative
  Content-Length (app/plugins/file_storage/main.py:1005-1033): `ByteRange.SuffixRange`, `PastTheEnd`.
- An export for an empty or unknown language code contains all languages
  (app/plugins/advanced_i18n/crud.py:205-208): `TranslationRoundTrip.FiltersExactly`.
- An import clears the machine and review marks of every row it updates (app/plugins/advanced_i18n/crud.py:501-507).
- The completion is rounded, so it reads 100 with up to one key in 20000 missing: `TranslationStats.StatisticsAgree`.
- A language with quality 0 can be chosen: when no available entry has positive quality, and when a longer tag with
  positive quality is cut to it: `AcceptLanguage.NotRefusedExactly`, `RefusedLanguageChosen`, `RefusedPrimaryChosen`.
- Gauges are said to be reset before recounting; only those of labels still in the table are
  (app/plugins/advanced_audit/main.py:97-102): `AuditGauges.MetricExactlyWhen`.
- A limit below 1 still admits the first request of each window (app/core/rate_limit.py:66-84):
  `RateLimit.LimitHoldsExactly`.
- Removing a router leaves its statements where they are the last line of the file, stand before other text on a
  line, or are joined up by the removal: `Codegen.RemovesExactly`, `JoinedImportStays`.

## Model

| member | source | states |
|---|---|---|
| `Translations.TranslationStore.CreateTranslation` | app/plugins/advanced_i18n/crud.py:225-273 | The tables and the error after a create: unknown language, get-or-create of the group, refusal of a second row for (language, group, key), the new row and its first history record. |
| `Translations.TranslationStore.UpdateTranslation` | app/plugins/advanced_i18n/crud.py:276-307 | The tables after an update of any set of fields: only the given fields change, and a record is added exactly when the value was given and differs. |
| `Translations.TranslationStore.AddTranslationHistory` | app/plugins/advanced_i18n/crud.py:322-339 | One record is appended with the code of the row's language (or "unknown"), the key and both values; nothing else changes. |
| `Translations.TranslationStore.GetOrCreateGroup` | app/plugins/advanced_i18n/crud.py:244-247 | Afterwards the group of that name exists, and the answer is its identifier; a group is added only if there was none. |
| `Translations.CreateKeepsUniqueKeys` | app/plugins/advanced_i18n/crud.py:249-252 | Creating never makes a second row for a (language, group, key). |
| `Translations.UpdateKeepsUniqueKeysExactly` | app/plugins/advanced_i18n/crud.py:294-297 | An update keeps (language, group, key) unique if and only if no other row of the same language and group already has the key it sets; the code does not check this. |
| `Translations.UpdateKeepsReplays` | app/plugins/advanced_i18n/crud.py:287-306 | Whatever fields an update sets, the history of every translation still leads, record by record, from nothing to its current value. |
| `Translations.CreateSound` | app/plugins/advanced_i18n/crud.py:225-273 | Creating keeps references valid, names unique and every history replayable. |
| `TranslationRows.CreateExactly` | app/plugins/advanced_i18n/crud.py:225-273 | A create fails on an unknown language code, changing nothing, and on a row with that language, group name and key, leaving at most the group; otherwise it appends one row with the given value, context, plural forms (an empty list as none) and marks, and one record. |
| `TranslationRows.UpdateExactly` | app/plugins/advanced_i18n/crud.py:276-307 | Field by field: what is given is set, what is left out stays, language, group and all other rows stay, and one record is added exactly when the value is given and differs. |
| `TranslationFiles.ImportTranslations` | app/plugins/advanced_i18n/crud.py:392-412 | The loops over groups and entries of an uploaded file compute the import as a fold over the document: 404 for an unknown language, one error for a file that is not a JSON object, otherwise tables and report. |
| `TranslationFiles.ImportOne` | app/plugins/advanced_i18n/crud.py:482-527 | One entry: read as a bare value or as an object, updated if the row exists, else created; an entry the request schemas refuse counts as error and skipped, and the import goes on. |
| `TranslationFiles.ImportMembers` | app/plugins/advanced_i18n/crud.py:470-527 | The loop over the entries of one group of the document, including the recovery after each bad entry. |
| `TranslationImport.SaysExactly` | app/plugins/advanced_i18n/crud.py:482-490 | An entry is accepted, and its content read, exactly when it is a string, null, or an object whose value (empty if left out), context and plural forms (none if left out) have their types. |
| `TranslationImport.ImportOutcome` | app/plugins/advanced_i18n/crud.py:470-527 | For every JSON object and every store: added + updated + skipped is the number of entries under object groups, errors = skipped, added is the number of rows gained, updated counts the accepted entries with a row, skipped those that are refused or would create a row without a value; afterwards each accepted entry stands under its group and key with both marks cleared, a skipped one leaves what stood there, and everything else, other languages included, is as before. |
| `TranslationImport.ImportedGroups` | app/plugins/advanced_i18n/crud.py:474-479 | Every group the document names exists afterwards, whatever stands under it, and no other is added. |
| `TranslationImport.ImportRefuses` | app/plugins/advanced_i18n/crud.py:412-535 | A file that is not JSON, not an object or of another kind: exactly one error and unchanged tables; an unknown language: 404. |
| `TranslationImport.NumberIsSkipped` | app/plugins/advanced_i18n/crud.py:523-525 | The file `{"common": {"n": 5}}`: skipped 1, errors 1, nothing stored. |
| `TranslationFiles.ExportTranslationsToDict` | app/plugins/advanced_i18n/crud.py:538-579 | The nested dictionary an export builds, row by row, from any answer of its query: rows that pass the language filter, none twice, all of them or 10000, in an order the database chooses. |
| `TranslationRuns.HistoryReplays` | app/plugins/advanced_i18n/crud.py:225-339 | In every state reached by any sequence of create, update and import requests, each translation's history starts from no value, each record's old value is the previous new value, no record is a non-change, and the last new value is the current value; references stay valid and names unique. |
| `TranslationRuns.EffectSound` | app/plugins/advanced_i18n/crud.py:392-535 | One request of any kind keeps that invariant, an import with arbitrary well-formed or malformed entries included. |
| `TranslationRoundTrip.FiltersExactly` | app/plugins/advanced_i18n/crud.py:204-208 | With at least two languages, an export is filtered by language, whatever the rows, if and only if the code is neither empty nor unknown. |
| `TranslationRoundTrip.UnknownCodeExportsBoth` | app/plugins/advanced_i18n/crud.py:204-208 | An input where it is not: one translation in each of two languages, an unknown code, and an export of both. |
| `TranslationRuns.KeysStayUnique` | app/plugins/advanced_i18n/crud.py:225-307 | In every state reached by creates, imports of any files and updates that set no key, no two translations have the same language, group and key. |
| `TranslationRoundTrip.ContentReadBack` | app/plugins/advanced_i18n/crud.py:561-577 | What the exporter writes for a row is read by the importer as the row's value, context and plural forms, with empty contexts and empty plural lists read as none. |
| `TranslationRoundTrip.DocIsFlat` | app/plugins/advanced_i18n/crud.py:474-527 | Importing a nested document whose groups all have entries equals importing its entries one after the other. |
| `TranslationRoundTrip.ExportLists` | app/plugins/advanced_i18n/crud.py:552-579 | For a language with unique (group, key), and whatever other languages hold: the entries of an export are, without repetition, exactly what the rows of the query are written as. |
| `TranslationRoundTrip.ImportOwnExport` | app/plugins/advanced_i18n/crud.py:470-579 | For a language with unique (group, key), whatever other languages hold, importing its own export (no bound on its size): report added 0, updated = number of entries, skipped 0, no errors; history, groups and all other rows untouched; each exported row keeps its place, its content up to empty contexts and plural lists, and loses its machine and review marks. |
| `TranslationRoundTrip.ReachableImportOwnExport` | app/plugins/advanced_i18n/crud.py:225-579 | So in every state reached by creates, imports and updates that set no key, for every language. |
| `TranslationRoundTrip.ContentSurvivesExactly` | app/plugins/advanced_i18n/crud.py:561-577 | Such a row has exactly its old content if and only if its context is not the empty string and its plural list is not empty. |
| `TranslationRoundTrip.ImportIntoEmpty` | app/plugins/advanced_i18n/crud.py:470-579 | Importing the export of a language with unique (group, key), string values and at most 10000 rows into a language without rows, in any store: added = number of entries and nothing else reported, under every (group, key) the same content, and every other language unchanged. |
| `TranslationStats.GetTranslationStats` | app/plugins/advanced_i18n/crud.py:349-389 | The loop over at most 100 languages, in the order the database lists them, computes for each its code and name, distinct-key totals, translated and to-review counts, the subtraction and the rounded percentage. |
| `TranslationStats.StatisticsAgree` | app/plugins/advanced_i18n/utils.py:116-140 | The missing count obtained by subtraction is the number of keys the missing-translations list names; to-review <= translated <= total; the unrounded percentage is 100 exactly when nothing is missing, and the rounded one that is returned exactly when at most one key in 20000 is. |
| `TranslationStats.ReadsComplete` | app/plugins/advanced_i18n/crud.py:375-386 | An input where the two differ: 99999 of 100000 keys, and a completion of 100. |
| `TranslationStats.RoundsToNearest` | app/plugins/advanced_i18n/crud.py:375-386 | The completion is the nearest number of hundredths, and of two the even one. |
| `TranslationStats.ReviewMarksCount` | app/plugins/advanced_i18n/crud.py:366-372 | Setting the review mark of a translation adds its key to those counted as to review, and clearing it takes the key away unless another row of the language with that key is marked; other languages keep theirs. |
| `AcceptLanguage.PrintThenScan` | app/plugins/advanced_i18n/middleware.py:77-82 | Scanning a printed list of tags with optional qualities, separated by any commas and blanks, gives the list back in order. |
| `AcceptLanguage.SortedOffer` | app/plugins/advanced_i18n/middleware.py:82-94 | Scanning the stably sorted list for the first available code finds the entry of highest quality, earliest among equals, and nothing exactly when no entry offers an available code. |
| `AcceptLanguage.NegotiationPicksBest` | app/plugins/advanced_i18n/middleware.py:73-96 | For every header: the answer is the available code of the best entry of the scanned list, none when no entry has one, and an exception exactly when some quality is not a number. |
| `AcceptLanguage.NotRefusedExactly` | app/plugins/advanced_i18n/middleware.py:83-94 | For every header in which no tag of quality 0 is named twice or is the primary code of another tag: the answered code is one the header does not refuse (section 12.4.2 of RFC 9110: quality 0 is "not acceptable") if and only if some available entry has positive quality, or the first available entry offers only its primary code. |
| `AcceptLanguage.RefusedPrimaryChosen` | app/plugins/advanced_i18n/middleware.py:83-94 | An input outside that condition: `fr;q=0, fr-CA;q=0.5, en;q=0.3` with `fr` and `en` available is answered with the refused `fr`. |
| `AcceptLanguage.AcceptableExactly` | app/plugins/advanced_i18n/middleware.py:83-94 | For every header: the answer comes from an entry of positive quality if and only if some available entry has one. |
| `AcceptLanguage.RefusedLanguageChosen` | app/plugins/advanced_i18n/middleware.py:83-94 | An input where it does not: the header `fr;q=0` with `fr` available is answered with `fr`. |
| `HeaderParts.WeightedExactly` | app/plugins/advanced_i18n/middleware.py:81-81 | Every match keeps its tag and has the quality it states, or 1 if it states none; a quality that is no number raises. |
| `HeaderParts.DottedQuality` | app/plugins/advanced_i18n/middleware.py:81-81 | A quality with a dot is its digits, read as one number, divided by ten for each digit behind the dot. |
| `HeaderParts.WholeQuality` | app/plugins/advanced_i18n/middleware.py:81-81 | One without a dot is its digits. |
| `HeaderParts.NoQuality` | app/plugins/advanced_i18n/middleware.py:81-81 | It is no number exactly when it has no digit or two dots. |
| `HeaderParts.PrimaryExactly` | app/plugins/advanced_i18n/middleware.py:87-87 | The primary code is the text before the first hyphen, in small letters. |
| `HeaderParts.AvailableExactly` | app/plugins/advanced_i18n/middleware.py:85-94 | An entry stands for its tag if that is available as written, otherwise for its primary code if that is, otherwise for nothing. |
| `AcceptLanguage.LanguageDetection.GetLanguageFromHeader` | app/plugins/advanced_i18n/middleware.py:73-96 | The early-return loop over the sorted list computes that negotiation. |
| `AcceptLanguage.LanguageDetection.Dispatch` | app/plugins/advanced_i18n/middleware.py:41-71 | The order of fallbacks: an available cookie language, the header, the default; a malformed quality aborts the request only if the cookie did not decide. |
| `FilterTree.KeyParts` | app/crud_base.py:53-55 | Printing a path of bracket-free keys as `filters[k1]...[kn]` and splitting it again gives the path. |
| `FilterTree.FilterKeyExactly` | app/crud_base.py:54-54 | A parameter is read exactly when its key is `filters[`, any text, and `]`. |
| `FilterTree.OthersAreIgnored` | app/crud_base.py:53-54 | Parameters without that prefix or bracket, anywhere in the query string, leave result and failure as they were. |
| `FilterTree.ParseGet` | app/crud_base.py:50-68 | What a query string leaves at a path: the last filter parameter naming it, unless a later one names a path above it. Which parameters those are is `FilterKeyExactly`. |
| `FilterTree.ParseFails` | app/crud_base.py:50-68 | The loop raises TypeError if and only if some parameter's path lies strictly below the path of an earlier one. |
| `FilterTree.PrintThenParse` | app/crud_base.py:44-69 | Every nested dictionary with bracket-free keys and no empty sub-dictionary, printed as one parameter per leaf in any order, is rebuilt exactly. |
| `FilterTree.SameLeavesSameTree` | app/crud_base.py:44-69 | Dictionaries without empty sub-dictionaries are equal when they hold the same strings at the same paths. |
| `FilterDict.ParseFilters` | app/crud_base.py:44-69 | The cursor-and-mutate loop over dictionary objects fails exactly when the functional reading does, and otherwise leaves an unaliased tree of objects whose value is the dictionary the parameters denote. |
| `FilterDict.Store` | app/crud_base.py:57-66 | The inner loop for one parameter: walk down, create missing dictionaries, assign at the last part; the heap is still a tree and its value is the functional insertion. |
| `FilterDict.Descend` | app/crud_base.py:62-66 | One move of the cursor, including the failure on a string. |
| `FilterDict.Assign` | app/crud_base.py:59-66 | One assignment to the cursor's dictionary changes the value of the whole tree at exactly that path. |
| `FilterDict.AssignValid` | app/crud_base.py:57-66 | Why: an assignment at the end of a trail keeps the objects unaliased, and every tree on the trail changes along the rest of the path while all others stay. |
| `Like.StartsWithExactlyWhenPlain` | app/crud_base.py:157-157 | The pattern `v%` selects exactly the strings starting with v if and only if v has no `%`, `_` or escape character (for a database with or without one). |
| `Like.ContainsExactlyWhenPlain` | app/crud_base.py:146-146 | The pattern `%v%` selects exactly the strings containing v if and only if v has no special character. |
| `Like.EndsWithExactlyWhenPlain` | app/crud_base.py:159-159 | The pattern `%v` selects exactly the strings ending with v if and only if v has no special character. |
| `Like.PlainExactly` | app/crud_base.py:146-159 | What is special: `%` and `_`, and the backslash in a database where it escapes. |
| `FilterTable.LessExactly` | app/crud_base.py:133-140 | The order of texts is the dictionary order: a proper beginning, or smaller at the first difference. |
| `FilterTable.TableOfComparisons` | app/crud_base.py:133-140 | What the operator table says for `$lt`, `$lte`, `$gt` and `$gte`, in terms of that order. |
| `FilterTable.TableOfSearches` | app/crud_base.py:145-159 | For `$contains`, `$notContains`, `$startsWith` and `$endsWith`. |
| `FilterTable.TableOnLists` | app/crud_base.py:141-144 | For `$in` and `$notIn`: `a,b,c` holds a, b and c. |
| `FilterTable.TableOnNull` | app/crud_base.py:149-152 | `$null` alone is satisfied by NULL, and every text satisfies `$notNull`. |
| `FilterTable.BetweenPadded` | app/crud_base.py:153-155 | `$between` with bounds padded by any white space compiles to the bare bounds and means what lies between them, both included. |
| `FilterTable.FifteenIsBetween` | app/crud_base.py:153-155 | The input `10, 20` selects a row with 15. |
| `FilterTable.OperatorRaises` | app/crud_base.py:141-155 | One operator raises ValueError exactly for `$between` with a text that does not have two parts, and AttributeError exactly for `$in`, `$notIn` and `$between` with a dictionary. |
| `FilterTable.BlocksRaise` | app/crud_base.py:116-121 | A `$or` or `$and` list raises AttributeError exactly when one of its blocks names a column the model does not have. |
| `TextLaws.StripExactly` | app/crud_base.py:154-154 | `strip` takes away white space at both ends, all of it, and nothing else. |
| `FilterSql.ApplyFilters` | app/crud_base.py:110-161 | The loop over the conditions computes the compiled predicate list, or the error it raises. |
| `FilterSql.CompileEntryLoop` | app/crud_base.py:113-159 | The inner loops over the members of a `$or` or `$and` list and over the operators of a field. |
| `FilterMeaning.OperatorExactly` | app/crud_base.py:80-159 | One operator with a text value, if it does not raise, selects, on every row, what the operator table says if and only if it is not one of the six case-insensitive names and, where its value becomes part of a pattern, the value has no special character. (The names that join filters say nothing about a text.) |
| `FilterMeaning.CaseIsNotIgnored` | app/crud_base.py:115-159 | Inputs where it does not: each of `$eqi`, `$nei`, `$containsi`, `$notContainsi`, `$startsWithi`, `$endsWithi`, with any value, selects a row whose column is NULL. |
| `FilterMeaning.JoinExactly` | app/crud_base.py:80-159 | Below a field, `$not`, `$and` and `$or` over any filters, nested ones included, select every row: as the table says, on every row, if and only if every cell satisfies what is asked, which for `$not` is that no cell satisfies all the filters. |
| `FilterMeaning.NotOneExactly` | app/crud_base.py:80-159 | For `$not` over one operator with a text: if and only if that operator can hold of no cell, that is `$lt`, `$notContains` or `$notContainsi` with the empty text, or `$between` without two bounds or with the low one above the high one. |
| `FilterMeaning.NotOfImpossible` | app/crud_base.py:80-159 | For `$not` over several filters: whenever one of them is such an operator. |
| `FilterMeaning.NotWithEqualExactly` | app/crud_base.py:80-159 | For `$not` over several filters with `$eq` among them: if and only if the text of `$eq` fails another of them. |
| `FilterMeaning.AndNever` | app/crud_base.py:80-159 | `$and` below a field never selects as the table says when an operator with a text is among its filters. |
| `FilterMeaning.OrTestsExactly` | app/crud_base.py:80-159 | `$or` below a field over operators with texts does if and only if `$null` is among them and every text satisfies one of them. |
| `FilterMeaning.NotIsIgnored` | app/crud_base.py:115-159 | An input where `$not` goes wrong: `filters[name][$not][$eq]=x` selects a row whose name is x. |
| `FilterMeaning.JoinsAreIgnored` | app/crud_base.py:115-159 | An input where `$or` and `$and` go wrong below a field: `filters[name][$or][$eq]=x` selects a row whose name is y. |
| `FilterMeaning.NotAboveFieldsIsIgnored` | app/crud_base.py:115-127 | `filters[$not][name][$eq]=x` is skipped as an unknown field and selects a row whose name is x. |
| `FilterMeaning.CompilePreservesMeaning` | app/crud_base.py:110-161 | Under three-valued logic the compiled conjunction selects a row exactly when the row satisfies, as the table says, every operator that has a branch, of every known field, and every block list. Nothing is asked of the values of unknown fields. |
| `FilterMeaning.OrExactly` | app/crud_base.py:117-121 | A `$or` list selects, on every row, what a disjunction of its members selects if and only if it is not empty and does not mix empty members with others. |
| `FilterMeaning.CompileFails` | app/crud_base.py:112-155 | Compilation raises if and only if some entry is malformed: a block list that is a dictionary or a text and not empty, a block naming an unknown column, or on a known field a `$in`, `$notIn` or `$between` with a dictionary, or a `$between` without exactly two bounds. |
| `FilterMeaning.QueryRuns` | app/crud_base.py:129-140 | What is compiled can be run unless a comparison of a known field got a dictionary, which the database driver refuses. |
| `FilterMeaning.OrderIrrelevant` | app/crud_base.py:112-161 | The order and repetition of entries changes neither failure nor selection, whatever the values. |
| `FilterMeaning.ComplementaryOperatorsPartition` | app/crud_base.py:124-150 | For every value and every table, `$eq`/`$ne`, `$in`/`$notIn` and `$contains`/`$notContains`, each with `$null`, split the rows into three disjoint parts that cover the table. |
| `FilterQuery.QueryRaises` | app/crud_base.py:44-155 | For every query string that is read: filtering by its dictionary raises if and only if it holds `$or` or `$and` with anything but an empty text, or an operator of a known field that cannot take its value apart. |
| `FilterQuery.BlocksFromQuery` | app/crud_base.py:116-121 | What is raised for such a `$or` or `$and` is an AttributeError. |
| `FilterQuery.OrRaises` | app/crud_base.py:44-121 | The input `filters[$or][0][name]=x`: it is read as a dictionary, and filtering by it raises AttributeError. |
| `FilterQuery.FlatParses` | app/crud_base.py:44-69 | Flat filters `filters[field][op]=value`, in any order, are always read, and what is read can be taken as conditions. |
| `FilterQuery.QueryFails` | app/crud_base.py:44-161 | From query string to compiler: flat filters in any order raise if and only if a list operator of a known field has a value it cannot take apart. |
| `FilterQuery.QuerySelects` | app/crud_base.py:44-161 | From query string to rows: flat filters printed in any order, read, compiled and run select exactly the rows that satisfy each filter as the table says (operators with a branch, fields of the model). |
| `RateLimit.RequestCounts.Check` | app/core/rate_limit.py:60-84 | The table update of both shared limiters: new window, counted admission, or refusal without counting. |
| `RateLimit.RequestCounts.Wrapper` | app/core/rate_limit.py:36-87 | The decorator: client key from host and user, no check without a request object. |
| `RateLimit.RequestCounts.Dispatch` | app/core/rate_limit.py:120-172 | The middleware: excluded paths, client key from host and the start of the bearer token, then the same check on the same table. |
| `RateLimit.AuthRateLimit.Dispatch` | app/plugins/advanced_auth/middleware.py:136-204 | Requests whose path starts with `/auth/login`, `/auth/register` or `/auth/reset-password` are counted under their host, refused ones too; all others pass and leave the table as it was. |
| `RateLimit.CountBounded` | app/core/rate_limit.py:60-84 | With limits of at most m on a client's key, the window of the client never holds more than m counted requests. |
| `RateLimit.CountIsAdmitted` | app/core/rate_limit.py:60-84 | The number kept for a client is the number of its requests admitted since the window began, in every run with a clock that does not go back. |
| `RateLimit.LimitHoldsExactly` | app/core/rate_limit.py:60-84 | In all runs every window keeps to the limit if and only if the limit is at least 1. |
| `RateLimit.FirstRequestPasses` | app/core/rate_limit.py:60-84 | An input where it does not: with a limit of 0 or less, the first request is admitted. |
| `RateLimit.IntervalBound` | app/core/rate_limit.py:60-84 | For both kinds of limiter, every run with a clock that does not go back, every mix of limits of at most m on one client key, and every closed interval of L > 0 seconds: at most m * (ceil(L / window) + 1) - 1 admissions, and at most m in an instant. Stronger by one than the bound the design gives. |
| `RateLimit.MinuteBound` | app/core/rate_limit.py:148-169 | Hence at most 2m - 1 in any 60 seconds. |
| `RateLimitReached.IntervalBoundReached` | app/core/rate_limit.py:60-84 | The bound is sharp for every limit and every length: for each m and L > 0 there is a run that admits m * (ceil(L / 60) + 1) - 1 requests in one closed interval of L seconds. |
| `RateLimitReached.InstantBoundReached` | app/core/rate_limit.py:60-84 | And one that admits m in an instant. |
| `RateLimitReached.MinuteBoundReached` | app/core/rate_limit.py:148-169 | In particular 2m - 1 in one closed minute. |
| `RateLimit.LimitersAgree` | app/plugins/advanced_auth/middleware.py:151-186 | With one limit per client and a 60 s window, the limiter that counts refused requests and the one that does not take the same decision on every request of every run (for every integer limit, below 1 included). |
| `RateLimit.Isolation` | app/core/rate_limit.py:148-169 | Under either limiter the decision on a request depends only on the subsequence of that client's own requests. |
| `RateLimitClients.AuthenticationCounted` | app/plugins/advanced_auth/middleware.py:146-149 | The authentication limiter counts a request to one of the three endpoints under its host and lets every other pass untouched. |
| `RateLimitClients.AuthenticationBound` | app/plugins/advanced_auth/middleware.py:151-186 | In every run of calls and every interval of L > 0 seconds, at most m * (ceil(L / window) + 1) - 1 calls of a host to the three endpoints go through, where m is the limit, and at least 1. |
| `RateLimitClients.BurstExactly` | app/plugins/advanced_auth/middleware.py:151-186 | When a host's calls to the three endpoints fall within one window, a call goes through if and only if fewer than the limit came before it, or none, whatever other hosts and paths are called in between. |
| `RateLimitClients.OthersPass` | app/plugins/advanced_auth/middleware.py:146-149 | A call to another path goes through in every run. |
| `RateLimitClients.DecoratedCounted` | app/core/rate_limit.py:50-58 | Through the decorator: nothing is checked without a request; the client is the host, and with a user the host, a colon and the user. |
| `RateLimitClients.DispatchedCounted` | app/core/rate_limit.py:120-138 | Through the middleware: paths that begin with an excluded one pass; without a bearer token the client is the host. |
| `RateLimitClients.TokenCounted` | app/core/rate_limit.py:141-146 | With a bearer token the client is the host, a colon and the first 16 characters of the token. |
| `RateLimitClients.AnyTokenCounted` | app/core/rate_limit.py:141-146 | If the token itself holds `Bearer `, every occurrence is dropped first. |
| `Lockout.AuthService.AuthenticateUser` | app/plugins/advanced_auth/service.py:118-187 | Outcome and accounts after a login attempt, with the checks in the source's order: unknown user, wrong password (count, maybe lock), lock, inactive, success. |
| `Lockout.AuthService.CreateTokens` | app/plugins/advanced_auth/service.py:229-235 | Issuing tokens zeroes the counter and stores the token, and leaves the lock. |
| `Lockout.AuthService.RefreshAccessToken` | app/plugins/advanced_auth/service.py:253-313 | Refreshing issues tokens for the active account the token names, and for no other. |
| `Lockout.AuthService.Logout` | app/plugins/advanced_auth/service.py:315-340 | Logging out forgets the refresh token and nothing else. |
| `Lockout.LockHolds` | app/plugins/advanced_auth/service.py:147-164 | Once a wrong password leaves the counter at 5 or more, no login of that account succeeds within the next 15 minutes, in every run of logins, token issues, refreshes and logouts of any accounts. |
| `Lockout.LockoutSafety` | app/plugins/advanced_auth/service.py:147-184 | The same in terms of events alone: five wrong passwords without a zeroing event in between. |
| `Lockout.LockedExactly` | app/plugins/advanced_auth/service.py:147-184 | For an account with a clean start, a right password is answered "locked" if and only if such a streak ended less than 15 minutes before. |
| `Lockout.OutcomeExactly` | app/plugins/advanced_auth/service.py:118-187 | For such an account: a login succeeds if and only if the password is right, the account active and there was no such streak; an inactive one is told so when not locked; a wrong password is answered "incorrect" in any case. |
| `Lockout.TokenExactly` | app/plugins/advanced_auth/service.py:229-340 | After every run the refresh token of an account is the last one issued, or refreshed while active, if no logout came since. |
| `Lockout.LastLoginExactly` | app/plugins/advanced_auth/service.py:166-313 | And its last login the time of the last successful login or token issue. |
| `Lockout.DeadlineNeverDecreases` | app/plugins/advanced_auth/service.py:147-184 | In a run from a clean account no event moves the deadline back; only a success clears it. |
| `Conversations.ListConversations` | app/services/faith_service.py:483-512 | The one-pass grouping refines the group-by: each interlocutor once, most recent first, the newest message of the thread, and the number of unread messages received from them. |
| `Conversations.GroupMessages` | app/services/faith_service.py:489-512 | The loop that fills the dictionary and the list built from it. |
| `Conversations.UnreadCountsAddUp` | app/services/faith_service.py:483-512 | The unread counts of the list add up to all unread messages addressed to the user. |
| `Conversations.MessageTable.SendMessage` | app/services/faith_service.py:468-480 | One unread row is appended, unless sender and receiver are the same. |
| `Conversations.MessageTable.MarkRead` | app/crud/crud_faith.py:385-397 | The loop marks exactly the unread messages the reader received from the other user, and returns how many there were. |
| `Conversations.OpeningClearsOneCount` | app/crud/crud_faith.py:385-397 | Opening a thread empties exactly that unread count; the unread messages of every other pair of users are the same rows as before. |
| `Conversations.ListAfterOpening` | app/services/faith_service.py:515-521 | In the conversation lists of any user before and after, the same interlocutor has the same last time and the same count, except that the opened thread has 0. |
| `Conversations.SameInterlocutors` | app/services/faith_service.py:515-521 | Both lists have the same interlocutors. |
| `FaithStore.ReachableConsistent` | app/services/faith_service.py:125-433 | In every state reached by service calls: at most one like per (user, sermon), at most one friendship per unordered pair and none with oneself, every like, comment and answer has its parent, every question with an answer is marked answered. |
| `FaithStore.MarkIsKept` | app/services/faith_service.py:355-386 | Over whole runs, a question that exists throughout does not lose its mark, deletions of answers included. |
| `FaithStore.FriendshipsStay` | app/services/faith_service.py:402-433 | Over whole runs, a friendship stays between its two users and once answered is never pending again. |
| `FaithHistory.OneForEachPair` | app/services/faith_service.py:402-418 | In every reached state no two friendships are between the same two users, in either direction. |
| `FaithHistory.StatusExactly` | app/services/faith_service.py:420-433 | After every run a friendship is accepted if and only if the last answer of its addressee accepted it, rejected if and only if that answer rejected it, and pending if and only if the addressee gave none. |
| `FaithHistory.SermonsExactly` | app/services/faith_service.py:125-155 | After every run a sermon is what the last request left that may write it: a publisher's create, an update or a delete by its owner or an administrator. |
| `FaithHistory.LikesExactly` | app/services/faith_service.py:157-176 | Likewise whether a user likes a sermon: the user's own toggles, and the deletion of the sermon. |
| `FaithHistory.CommentsExactly` | app/services/faith_service.py:194-222 | Likewise comments, which go with their sermon. |
| `FaithHistory.QuestionsExactly` | app/services/faith_service.py:296-376 | Likewise questions: text by owner or administrator, the mark by a publisher's answer. |
| `FaithHistory.AnswersExactly` | app/services/faith_service.py:355-389 | Likewise answers, which go with their question. |
| `FaithHistory.FriendshipsExactly` | app/services/faith_service.py:402-433 | Likewise friendships: a request between two users who have none, and answers of the addressee. |
| `FaithHistory.OutcomesExactly` | app/services/faith_service.py:125-433 | Which request is answered 404, 403, 400 or 409, in terms of the rows and the sender's role; whatever fails changes nothing. |
| `FaithStore.ChangesAreAuthorised` | app/services/faith_service.py:48-65 | Whatever the request, in every table rows come, change or go only through those the service allows: owner or administrator (for comments, likes and answers also the owner of the parent that takes them along), a like through its user, publishers for new sermons, new answers and the answered mark, the sender for everything new, the addressee for the answer to a friend request; nobody removes a friendship. |
| `FaithStore.ToggleMovesCount` | app/services/faith_service.py:157-176 | A toggle flips whether the user likes the sermon, moves its like count by exactly one in that direction, and leaves other sermons alone. |
| `FaithStore.ToggleTwice` | app/services/faith_service.py:157-176 | Two toggles restore who likes what. |
| `FaithStore.FaithService.ToggleSermonLike` | app/services/faith_service.py:157-176 | Finding the user's like and removing that row, or adding one, is the step of the model: because likes are unique it removes every like of the user and the sermon. |
| `FaithStore.FaithService.AddAnswer` | app/services/faith_service.py:125-433 | The code of the request takes exactly the step of the model that the laws on runs speak of, in the source's order of checks; so do CreateSermon, UpdateSermon, DeleteSermon, AddSermonComment, DeleteSermonComment, CreateQuestion, UpdateQuestion, DeleteQuestion, DeleteAnswer, SendFriendRequest and RespondFriendRequest. What each step leaves is `FaithHistory`. |
| `Codegen.MainFile.IncludeRouter` | app/codegen.py:83-99 | The file after including a router; a missing file stays missing. |
| `Codegen.MainFile.RemoveRouter` | app/codegen.py:102-119 | The file after removing a router; a missing file stays missing. |
| `Codegen.IncludeRoutes` | app/codegen.py:92-98 | After including, both statements stand in the file, for every name and every text. |
| `Codegen.IncludeTwice` | app/codegen.py:92-98 | Including is idempotent, for every name and every text. |
| `Codegen.RemoveAfterInclude` | app/codegen.py:83-119 | For every text: removing after including gives the text plus exactly one newline if and only if the text did not contain the inclusion statement and no line of it ended in the import statement. |
| `Codegen.RemoveAfterIncludeFromClean` | app/codegen.py:83-119 | In particular on every text that contains neither statement. |
| `Codegen.RemoveLeavesOthers` | app/codegen.py:102-119 | For identifier names that differ in lower case, removing one router leaves both statements of the other, wherever they stand in whatever text. |
| `Codegen.RemovesExactly` | app/codegen.py:113-119 | For a file in which neither a statement nor a beginning of one stands directly before a line-ending statement: after removal the file mentions neither statement if and only if each of their occurrences was followed by a newline. |
| `Codegen.OwnLinesAreFenced` | app/codegen.py:113-119 | In particular a file whose line-ending statements stand on lines of their own meets that condition. |
| `Codegen.JoinedImportStays` | app/codegen.py:113-119 | For other files it may go wrong: an import line between the two halves of the same import leaves the import. |
| `Codegen.StaysRouted` | app/codegen.py:83-119 | Over whole runs: a router stays in the file from its inclusion until a router with the same lower-case name is removed. |
| `ByteRange.PublicPreview` | app/plugins/file_storage/main.py:992-1055 | Parsing, clamping, headers and slicing step by step: the whole file without or with an unreadable header, else the 206 answer. |
| `ByteRange.PrintThenParse` | app/plugins/file_storage/main.py:1009-1010 | Python's int undoes str on every integer. |
| `ByteRange.ReadableExactly` | app/plugins/file_storage/main.py:1009-1010 | A bound is read, and raises no ValueError, exactly when it is digits with single underscores between them, at most one sign before and white space around. |
| `ByteRange.RequestedNonNegative` | app/plugins/file_storage/main.py:1005-1014 | No header yields a negative start, so the clamp at 0 never acts; the end is negative only for an empty file. |
| `ByteRange.RangeReadBack` | app/plugins/file_storage/main.py:1005-1010 | `bytes=a-b`, `bytes=a-`, `bytes=-b` and `bytes=-` are read back to their bounds, with 0 and size - 1 for bounds left out. |
| `RangeParts.WholeExactly` | app/plugins/file_storage/main.py:991-1055 | Every request is answered with 200 or 206; with 200, the whole file and its length, exactly when there is no Range header or one of its first two bounds is given and no integer. Other headers stay as they were. |
| `RangeParts.SignedValue` | app/plugins/file_storage/main.py:1009-1010 | A numeral, with or without a sign and between any white space, is read as its positional value. |
| `RangeParts.PrintedDigits` | app/plugins/file_storage/main.py:1031-1033 | Numbers are printed with decimal digits, the most significant first. |
| `ByteRange.RangeAnswered` | app/plugins/file_storage/main.py:1009-1039 | For a <= b and a inside the file: status 206, exactly the bytes a to min(b, size - 1), and Content-Range and Content-Length that say so (sections 14.1.2 and 14.4 of RFC 9110). |
| `ByteRange.LengthHonest` | app/plugins/file_storage/main.py:1009-1033 | For every readable header, Content-Length is the length of the body if and only if the start is at most one past the clamped end. |
| `ByteRange.PastTheEnd` | app/plugins/file_storage/main.py:1005-1033 | A start at or past the end is answered with 206, no bytes and a length of size - start, right if and only if the start is the size. |
| `ByteRange.PastTheEndOfOneByte` | app/plugins/file_storage/main.py:1005-1033 | `bytes=2-` of a file of one byte is answered with Content-Length -1. |
| `ByteRange.SuffixRange` | app/plugins/file_storage/main.py:1005-1033 | `bytes=-n` is answered with the first n + 1 bytes; these are the last n bytes RFC 9110 asks for if and only if the file has at most n bytes. |
| `ByteRange.RangesReassemble` | app/plugins/file_storage/main.py:1005-1033 | The answers to any consecutive ranges that start at 0 and reach or pass the end, put together, are the file. |
| `AuditGauges.AuditMetrics.InitialiseMetrics` | app/plugins/advanced_audit/__init__.py:9-58 | The metrics are cleared and set to fresh group-by counts, in whatever order the groups come. |
| `AuditGauges.AuditMetrics.CreateLog` | app/plugins/advanced_audit/main.py:43-69 | One row and one step up of the counter and both gauges. |
| `AuditGauges.AuditMetrics.DeleteLog` | app/plugins/advanced_audit/main.py:79-89 | The row goes and the gauges of the labels still in the table are recounted; 404 exactly for an unknown id. |
| `AuditGauges.AuditMetrics.UpdatePrometheusGauges` | app/plugins/advanced_audit/main.py:96-112 | The reset and set loops leave each gauge of a label in the table at its count and do not touch the others. |
| `AuditGauges.MetricExact` | app/plugins/advanced_audit/main.py:42-112 | In every run from any table, each gauge and the counter equal the fresh count plus the number of deletions they failed to notice since they were last set (so they are never below it). |
| `AuditGauges.MetricExactlyWhen` | app/plugins/advanced_audit/main.py:42-112 | A metric equals the fresh count if and only if each deletion it failed to notice (for a gauge: of the last log of its label) was followed by a step that recounted it. |
| `AuditGauges.GaugeAgrees` | app/plugins/advanced_audit/main.py:42-112 | In runs that never delete the last log of a label its gauge always equals the count. |
| `AuditGauges.StaleGauge` | app/plugins/advanced_audit/main.py:96-112 | A run where it does not: the only log of a resource is deleted and the gauge stays at 1. |
| `AuditGauges.DeletionIsExact` | app/plugins/advanced_audit/main.py:79-89 | In every state with distinct identifiers, which `IdsStayDistinct` keeps over whole runs, a deletion takes away the log with the identifier and no other. |

## Left out

- FilterMeaning.CompilePreservesMeaning: operators with a branch get texts, those that build patterns texts without special characters; `OperatorExactly` proves that they mean what the table says exactly then. A dictionary as the value of an operator that does not join filters has no documented meaning.
- FilterSql.ApplyFilters: columns hold text or NULL, so conversions of a value to a number or date type and their errors are not modelled; the text `str(d)` of a dictionary is an input.
- TranslationRoundTrip.ImportIntoEmpty: the 10000-row limit of the export is a precondition, because later rows are not exported; so are string values, since creating a row without a value is refused.
- Translations.FindRow: where several rows match, the first in table order is taken, as the query names no order.
- Translations.TranslationStore.UpdateTranslation: keys are never null; an update that sets the key to null is not modelled.
- TranslationStats.GetTranslationStats: percentages are exact numbers, and rounding takes halves to the even hundredth; in floating point, exactly one key in 20000 missing may read 99.99.
- AcceptLanguage.NegotiationPicksBest: qualities are exact decimals instead of floating-point numbers, and lower case is that of ASCII, as in every module.
- RateLimit.IntervalBound: clock readings are real numbers, not floating-point ones, and no other code writes the table.
- Lockout.DeadlineNeverDecreases: from accounts without a lock at the start; an account stored with a deadline further ahead could have it replaced by an earlier one.
- Lockout.AuthService.AuthenticateUser: password hashing, token formats, and account changes such as deactivation or password change between events.
- ByteRange.PublicPreview: digits in numbers are the ASCII ones (a header is decoded as Latin-1, which has no other decimal digits), Python's limit on very long numerals is not modelled, and the headers that depend on the media type are a parameter.
- Codegen.RemovesExactly: for files without a statement, or a beginning of one, directly before a removed line; in others the removal may put a statement together.
- AcceptLanguage.NotRefusedExactly: for lists in which a refused tag is not named again or cut out of another; in others the answer may be refused although an acceptable language is available. The wildcard `*` is not matched by the expression.
- Codegen.RemoveAfterInclude: for names without a newline; resource names are identifiers.
- AuditGauges.MetricExact: the time-of-last-event gauge, database errors during the count, and the rows that `log_audit_event` writes without touching the metrics.
- Conversations.MessageTable.MarkRead: the read flags in the answer of `get_conversation` depend on whether the session returns the marked objects; only the table is modelled.
- Conversations.ListConversations: among messages with equal times the order of the database is an input, so the newest message is one of them; times are integers.
- FaithStore.ReachableConsistent: testimonies, administration of roles, and the response objects; the texts of a row are one field.
- Deleting translations, languages and groups, renaming groups, language flags and default language: whether history rows block a deletion depends on the database.
- CSV import and export: the quoting is that of Python's csv module.
- The `populate` and relational parts of `list_items`, pagination, permissions of the generated routers: they depend on library objects.
- Generation of models, schemas and routers (`build_model_code` and its helpers): text assembly without a law of its own.
- Session and transaction behaviour of the database, concurrent requests inside one step, JWT, OAuth, file storage providers, websockets, logging and metric export.
