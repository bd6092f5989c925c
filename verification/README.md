# Traffic-accident record downloader: parsing and caching core

This project models the data-loading core of the `DataDownloader` class of a
Czech police traffic-accident statistics tool. It covers:

- the fixed tables: 64 CSV column names, the numpy dtype of each column, and the 14 region codes with the two-digit CSV member name of each;
- the coercion of one raw CSV field into the typed value stored in its column;
- the removal of records whose record number (`p1`) already occurred in the same archive. It is modelled as the source writes it, and that version is what every region parse and every request uses. The version its comment documents is modelled beside it;
- building a region's column set from a sequence of archives, with the synthetic `region` column added. Besides the source's construction, the model defines the construction with the documented deduplication and proves the two equal when no member repeats more than one record number;
- `get_dict`: validation of the requested region codes, then answering each region from the in-memory cache, else from its cache file, else by parsing. Answers are appended column by column in request order;
- the name of a cache file (the code put in place of `{}` in the template);
- which archive links the download step fetches.

Files:

- `results.dfy`: `Option` and `Result`.
- `text.dfy`: digit strings, decimal numbers, lexicographic order, insertion sort, flattening.
- `schema.dfy`: the column and region tables and the dtype classes.
- `coercion.dfy`: the field coercion.
- `dedup.dfy`: the two deduplications, the agreement between them, and the counterexamples.
- `frames.dfy`: column sets as maps from column name to column.
- `parser.dfy`: one region's column set from its archives, as the source computes it and with the documented deduplication.
- `cache.dfy`: cache file names, the session state, one request, and the properties of requests.
- `fetch.dfy`: the link selection of the download step.

Some values become abstract:

- Floats are exact rationals.
- Dates are the text numpy was given.
- An archive is a map from member name to records, each record a sequence of field texts.
- The folder of cache files is a map from file name to column set.
- The sequence of archives (the folder listing) is an input.

## Model

| member | source | states |
|---|---|---|
| Schema.HeadersWellFormed | proj1/download.py:33-41 | There are 64 column names and 64 dtypes. The names are pairwise distinct, and `region` is not one of them, so the 65 keys of a column set are distinct. |
| Schema.DataTypesAligned | proj1/download.py:33-41 | Every dtype contains exactly one of the letters U, i, M, f. `p1` is a 12-character string column, `p2a` is the only date column, and `a`, `b`, `d`, `e`, `f`, `g` are exactly the float columns. |
| Schema.RegionsWellFormed | proj1/download.py:43-58 | The region table has 14 distinct three-letter codes, listed in table order. Their member names are pairwise distinct two-digit strings. |
| Coercion.Coerce | proj1/download.py:156-182 | The stored value has the kind of its column's dtype. An empty field stores the missing-value sentinel. A string column stores the whole text when it fits the declared width, and otherwise exactly its first `width` characters. A date column stores any text other than a not-a-time spelling as given. |
| Coercion.SentinelStageRedundant | proj1/download.py:157-182 | Whenever the sentinel stage for an empty field writes a value, the type stage that follows writes the same value. |
| Coercion.EmptyFields | proj1/download.py:157-170 | In every one of the 64 columns, an empty field becomes -1, not-a-time or not-a-number, or stays the empty string in a string column. |
| Coercion.ReplaceCommas | proj1/download.py:174 | Every comma becomes a point and every other character stays, so the length is kept. |
| Coercion.CommaAndPointAgree | proj1/download.py:172-174 | In a float column, a decimal comma and a decimal point give the same value. |
| Coercion.CommaDecimal | proj1/download.py:171-176 | `whole,frac` in a float column is stored as the exact number it spells. |
| Coercion.NegativeCommaDecimal | proj1/download.py:171-176 | `-whole,frac` in a float column, as the coordinate columns hold, is stored as the exact negative number it spells. |
| Coercion.NegativeFloat | proj1/download.py:172-176 | A leading minus before a float text that starts with a digit stores the negated value. |
| Coercion.FloatExamples | proj1/download.py:165-176 | "12,5" is stored as 12.5, and an empty float field as not-a-number. |
| Coercion.FloatRejectsStrayCharacter | proj1/download.py:172-176 | Under the model's float grammar, a float field with a character that is not a digit, separator or leading sign is stored as not-a-number. |
| Coercion.IntRoundTrip | proj1/download.py:178-180 | A printed integer stored in an integer column is read back unchanged. |
| Coercion.IntRejectsNonDigit | proj1/download.py:178-182 | An integer field with a non-digit anywhere but a leading sign is stored as -1. |
| Dedup.Duplicates | proj1/download.py:186-187 | The repeated record numbers, each once, in ascending order. They are exactly the keys that occur more than once. |
| Dedup.DeleteIsKept | proj1/download.py:195 | A deletion keeps exactly the rows at the positions not deleted, in their original order and unchanged. |
| Dedup.DeleteLoop | proj1/download.py:189-195 | The source's loop over the repeated keys. When it completes, it leaves as many columns as it was given, none longer than before. With no repeated key it changes nothing. |
| Dedup.AsWritten | proj1/download.py:184-195 | The source's deduplication. It never adds a row, and when no record number repeats it returns the columns unchanged. |
| Dedup.DeleteLoopKeepsShape | proj1/download.py:189-195 | If the source's loop completes, it leaves as many columns as it was given, all of one length. |
| Dedup.Distinct | proj1/download.py:191 | Reference for first-occurrence deduplication: no key repeats, and every key of the input is present. |
| Dedup.KeepFirst | proj1/download.py:191-195 | The intended deduplication removes one position set from every column, so all columns keep one length. |
| Dedup.KeepFirstKeys | proj1/download.py:191 | The intended deduplication turns the key column into the keys without repeats, each at its first occurrence. |
| Dedup.AgreeWhenOneKeyRepeats | proj1/download.py:184-195 | When at most one record number repeats, the source's loop succeeds and gives the intended result. |
| Dedup.StaleIndexDeletesWrongRow | proj1/download.py:185-195 | For keys a, b, a, b, c, the loop keeps a, b, b, while the intended result is a, b, c. |
| Dedup.StaleIndexOutOfBounds | proj1/download.py:185-195 | For keys a, a, b, b, the loop's second deletion lies past the end of the shortened columns and fails. |
| Frames.Empty | proj1/download.py:228-231 | The starting accumulator has all 65 columns, and every column is empty. |
| Frames.Append | proj1/download.py:237-238 | Appending a column set appends it key by key. The keys are kept, the table stays rectangular, and the row counts add up. |
| Frames.ConcatFrom | proj1/download.py:233-258 | Appending column sets one after another keeps the accumulator's keys, and the result stays a table. |
| Frames.ConcatFromColumns | proj1/download.py:233-258 | After a sequence of appends, every column is the accumulator's column followed by the appended sets' columns in order. |
| Frames.ConcatFromRows | proj1/download.py:233-258 | After a sequence of appends, the row count is the accumulator's plus the sum of the appended sets' row counts. |
| Frames.TabulateLookup | proj1/download.py:205-206 | With distinct names, each name maps to the column at its own position. |
| Frames.ToFrameSpec | proj1/download.py:201-208 | A column set built from 64 equal-length columns is a complete table: each header holds its column, and `region` holds the code in every record. |
| Parser.MemberName | proj1/download.py:145 | A region's member name is six characters long and ends in ".csv". |
| Parser.FirstShort | proj1/download.py:147-182 | Returns the first record with fewer fields than columns, or none exactly when every record is long enough. |
| Parser.CoerceRowsTyped | proj1/download.py:153-182 | Every coerced entry has its column's kind. |
| Parser.KeysAreRecordNumbers | proj1/download.py:185 | A record's key is a prefix of its first field, and equals the field when the field has at most 12 characters. |
| Parser.ArchiveTable | proj1/download.py:184-195 | One archive's table as the source computes it. When the deduplication loop completes, there are 64 columns of one length, no longer than the member. |
| Parser.IntendedTableKeys | proj1/download.py:191 | The documented deduplication, kept as a reference: the table's key column holds the record numbers without repeats, one entry per kept record. |
| Parser.IntendedTableRecords | proj1/download.py:191 | The documented deduplication keeps the first record of every record number, in file order. Each entry is the coerced field of its kept record. |
| Parser.IntendedTableSize | proj1/download.py:191 | The documented deduplication leaves as many records as there are distinct record numbers. |
| Parser.ArchiveTableAgrees | proj1/download.py:184-195 | When at most one record number repeats in a member, the source's loop gives the same table as the documented deduplication. |
| Parser.MemberRecords | proj1/download.py:143-182 | An archive gives its member's records exactly when the member exists and no record is short. Otherwise it gives the missing member or the short record, tagged with the archive's position. |
| Parser.ReadArchive | proj1/download.py:141-195 | One archive is read exactly when it parses: its member exists, no record is short, and the deduplication loop completes. The result is then the loop's table. Otherwise the failure is the missing member, the short record or the out-of-range deletion, tagged with the archive's position. |
| Parser.ArchiveTables | proj1/download.py:141-199 | The archives' tables in archive order, one per archive, each of 64 columns of one length. A failure is never an unknown region. |
| Parser.ArchiveTablesSucceed | proj1/download.py:141-199 | The archives all give tables exactly when every archive is read without failure. |
| Parser.ArchiveTablesValues | proj1/download.py:141-195 | Then table `a` is what reading archive `a` gives. |
| Parser.ArchiveTablesFirstFailure | proj1/download.py:141-199 | A failure is that of the first archive that does not parse, and every archive before it parses. |
| Parser.ArchiveTablesPrefix | proj1/download.py:141-199 | A failure among the first archives is the failure of the whole sequence. |
| Parser.ArchiveRecords | proj1/download.py:141-145 | The records of every archive's member in archive order, each record long enough, or a failure that is neither an unknown region nor a failed deletion. |
| Parser.ArchiveRecordsSucceed | proj1/download.py:141-182 | The archives all give records exactly when every archive is readable. |
| Parser.ArchiveRecordsValues | proj1/download.py:141-145 | When every archive is readable, archive `a` gives its own member's records. |
| Parser.JoinSizes | proj1/download.py:198-199 | Every appended column has as many records as all tables together. |
| Parser.JoinSnoc | proj1/download.py:198-199 | One more table appends its columns to the accumulated columns. |
| Parser.Assemble | proj1/download.py:197-210 | The tables appended in order make a complete column set. Each header holds its appended column, `region` holds the code in every record, and the record count is the sum of the tables' record counts. |
| Parser.RegionFrame | proj1/download.py:117-127 | An unknown code, and only an unknown code, gives the failure for an unknown region. A column set that is produced is a complete table. |
| Parser.RegionFrameSpec | proj1/download.py:117-210 | A region's column set exists exactly for a known code whose archives all parse. Table `a` is then the source's deduplicated table of archive `a`'s member, and the tables are assembled in archive order with no deduplication across archives. |
| Parser.RegionFrameFailure | proj1/download.py:141-195 | For a known code, a failure is that of the first archive that does not parse: a missing member, a short record or an out-of-range deletion. |
| Parser.RegionFrameIntended | proj1/download.py:191 | The reference construction with the documented deduplication: an unknown code, and only that, fails as unknown, and a produced column set is a complete table. |
| Parser.RegionFrameIntendedSpec | proj1/download.py:141-210 | The reference column set exists exactly for a known code whose archives are all readable, and is the documented tables of the archives' members assembled in archive order. |
| Parser.ArchiveTablesAgree | proj1/download.py:184-199 | When no readable member repeats more than one record number, the source's archive tables are the documented ones, and the failures coincide. |
| Parser.RegionFrameAgrees | proj1/download.py:184-210 | Under the same condition, the source's column set equals the reference one, failures included. |
| Parser.ParseRegionData | proj1/download.py:117-210 | The one-pass loop over the archives computes the source's column set, stopping at the first archive that raises. It reports an unknown code and nothing else as one. |
| Cache.ReplaceBraces | proj1/download.py:242 | Putting `{}` back in place of `{}` changes nothing, and a two-character code keeps the name's length. |
| Cache.ReplaceNoSlot | proj1/download.py:242 | A template without `{}` names the same file for every region. |
| Cache.ReplaceInjective | proj1/download.py:242 | A template with `{}` gives different file names to different codes of the same length. |
| Cache.ReplaceSingleSlot | proj1/download.py:242 | A template with one `{}` names the file by putting the code in that place. |
| Cache.DefaultNames | proj1/download.py:60-66 | The default template names a region's file `data_<code>.pkl.gz`. |
| Cache.NewSession | proj1/download.py:72-87 | A new downloader remembers nothing for any of the 14 regions. |
| Cache.View | proj1/download.py:233-258 | Reference for a region's answer: what memory holds, else the cache file, else the parse. The answer is a complete table. |
| Cache.Views | proj1/download.py:233-258 | Reference for a list of regions: when it succeeds, one answer per region, each a complete table. |
| Cache.Step | proj1/download.py:233-264 | One region of a request keeps the session consistent and its template unchanged, and any answer is a complete table. |
| Cache.StepSpec | proj1/download.py:233-264 | One region is answered as the reference says. A memory hit changes nothing. A failed parse changes nothing. Any answer is remembered. Only a parse writes a file, and only under the region's own name, holding the answer. |
| Cache.Resolve | proj1/download.py:233-266 | A request over known codes keeps the session consistent, never reports an unknown region, and any data it returns is a complete table. |
| Cache.GetDict | proj1/download.py:212-266 | A request is refused exactly when an explicit list contains an unknown code, and a refused request leaves the session untouched. Any data returned is a complete table. |
| Cache.DefaultIsAllRegions | proj1/download.py:220-221 | Giving no region list requests all 14 regions in table order. |
| Cache.StepKeepsViews | proj1/download.py:242-264 | With `{}` in the template, answering one region changes no region's reference answer. |
| Cache.ResolveKeepsViews | proj1/download.py:233-264 | With `{}` in the template, a whole request changes no region's reference answer. |
| Cache.ResolveMatchesViews | proj1/download.py:233-266 | With `{}` in the template, a request appends the reference answers in request order, or stops at the first failure. |
| Cache.GetDictMatchesViews | proj1/download.py:212-266 | The same for `get_dict` with known codes, starting from empty columns. |
| Cache.GetDictContents | proj1/download.py:228-266 | For any template, a request that returns data leaves every requested region remembered. Every column of the combined set holds the remembered regions' columns in request order, and its record count is the sum of theirs. |
| Cache.ResolveKeepsDisk | proj1/download.py:243-264 | An existing cache file is never rewritten or removed. |
| Cache.ResolveDiskNames | proj1/download.py:242-264 | Every new cache file carries the name of a requested region. |
| Cache.ResolveKeepsMemo | proj1/download.py:235-260 | A remembered region is never forgotten or replaced. |
| Cache.ResolveMemoRequested | proj1/download.py:251-260 | Only requested regions become remembered. |
| Cache.GetDictCacheFiles | proj1/download.py:242-264 | A request only adds cache files, each named after a requested region. |
| Cache.GetDictMemory | proj1/download.py:233-260 | A request never forgets what memory holds, and it remembers only requested regions. |
| Cache.ResolveRemembers | proj1/download.py:251-260 | A request that returns data leaves every requested region remembered. |
| Cache.ResolveAnswersRemembered | proj1/download.py:233-266 | A request that returns data answers, in request order, exactly the column sets it leaves remembered for its regions. |
| Cache.ResolveFromMemory | proj1/download.py:235-239 | A request whose regions are all remembered answers their remembered column sets in request order and changes nothing. |
| Cache.GetDictIdempotent | proj1/download.py:212-266 | For any template, repeating a request that returned data returns the same data and leaves the session as it was. |
| Fetch.DigitCount | proj1/download.py:106 | A link's digit count is at most its length, and it is zero exactly when the link has no digit. |
| Fetch.Selection | proj1/download.py:101-108 | A page without links gives no selection, as indexing the last of no links fails. |
| Fetch.Keep | proj1/download.py:104-108 | Every kept link is selected, and when every link is selected all are kept in page order. |
| Fetch.KeepSpec | proj1/download.py:104-108 | Exactly the links with four digits, or equal to the last link, are fetched. |
| Fetch.KeepAppend | proj1/download.py:104-108 | Links are fetched in page order. |
| Fetch.SelectionSpec | proj1/download.py:101-108 | The newest archive is always fetched, every yearly archive is fetched, and nothing else is. |

## Left out

- Fetching is reduced to link selection. The HTTP requests, the HTML parsing, the `split('\'')` on the `onclick` attribute and the writing of the downloaded files are not modelled: they are network and file I/O.
- Reading the archives is not modelled: the zip files, cp1250 decoding, the CSV reader and the count-then-`seek(0)` trick are I/O. Each archive is given as a map from member name to records, each record a sequence of field texts. Blank lines the CSV reader skips are assumed already absent.
- The folder listing (`os.listdir`, the `.zip` filter) and the download when the folder or the archives are missing are I/O. The archive sequence is an input, and a request passes the same sequence to every region it parses.
- The stale archive list is not modelled inside a request. When no archive is listed, `parse_region_data` downloads them but keeps its empty list, so it produces an empty column set, which `get_dict` remembers and writes to the cache file for good. Only that first parsed region sees the empty list: later regions list the folder again and find the downloaded archives. A single parse with an empty archive sequence gives the same empty column set, but a request where the first parsed region sees no archives and later ones see some has no counterpart in the model.
- A missing member (`KeyError` from `zip.open`), a short record (a `TypeError` when a missing field reaches an integer column) and a deletion past the end of a shortened column (the `IndexError` from `np.delete`) are exceptions in the source. They are modelled as the failures `MissingMember`, `ShortRecord` and `StaleIndex`, and a request that meets one ends with the outcome `Raised`. Fields beyond the 64th are ignored, as the CSV reader collects them under a separate key.
- gzip and pickle are not modelled: the folder is a map from file name to column set, and loading returns what was stored. The folder path that `os.path.join` prefixes is dropped, since it is the same for every name.
- The error messages printed to stderr are not modelled. An unknown code in `parse_region_data` is the failure `UnknownRegion`, and an unknown code in `get_dict`'s list is the outcome `Rejected`; in both cases the source returns `None`.
- Cache.Valid: assumes that every cache file already in the folder holds a complete column set, since the source trusts whatever it unpickles.
- Cache.GetDictMatchesViews: requires a template containing `{}`, and so do Cache.ResolveMatchesViews, Cache.ResolveKeepsViews and Cache.StepKeepsViews. Without `{}` every region shares one cache file, and a later region is answered from an earlier region's file.
- Coercion.Coerce: stores a float as the exact rational it spells, not rounded to 32-bit `float32`. The float grammar is an optional sign, digits and at most one point. numpy's whitespace, exponents, `inf` and `nan` spellings are not accepted.
- Coercion.Coerce: the integer grammar is an optional sign and ASCII digits. Overflow of `i1`, `i2`, `i4` and `i8` columns is not modelled: the stored integer is unbounded.
- Coercion.IntRejectsNonDigit: Python's `int()` also accepts surrounding whitespace, `_` between digits and non-ASCII decimal digits. For example, the source stores " 5" as 5 where the model stores -1, so this lemma holds only for the model's narrower grammar.
- Coercion.FloatRejectsStrayCharacter: holds only for the model's float grammar. numpy's `astype("f")` also accepts surrounding whitespace, exponents and the `inf`/`nan` spellings, so the source stores " 1,5" as 1.5, "1e3" as 1000 and "inf" as infinity, while the model stores not-a-number for all three.
- Fetch.DigitCount: counts the ASCII digits 0-9 only. `str.isdigit` also counts other Unicode digits, such as superscripts and Arabic-Indic digits, so a link name containing such characters is counted differently.
- Coercion.Coerce: stores any date text as given. Calendar parsing, where malformed text makes numpy raise, is not modelled.
- The `region` column is declared `U3`. Truncation there is moot, since every code has three letters.
- `print_colums_info` and the `__main__` block only print.
- The later projects (statistics plots, pandas analysis, geographic plots) are outside this core.

## Findings

| source | as written | input that shows it | evidently intended | confidence | as-written member | corrected member |
|---|---|---|---|---|---|---|
| proj1/download.py:185-195 | Deletion positions are computed on the untouched `p1` copy, but applied to columns that earlier rounds have already shortened. | `p1` = a, b, a, b, c: the rows a, b, b remain. | Keep the first record of every record number: a, b, c. | not executed | Dedup.StaleIndexDeletesWrongRow | Dedup.KeepFirstKeys |
| proj1/download.py:192-195 | The same stale positions can lie past the end of the shortened columns. | `p1` = a, a, b, b: the second deletion asks for position 3 of a three-row column, and `np.delete` raises. | Keep a, b. | not executed | Dedup.StaleIndexOutOfBounds | Dedup.KeepFirstKeys |
