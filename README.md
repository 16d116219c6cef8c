# Legislature roster update — a Dafny model

The scraper reads the roster of the Buenos Aires City legislature. It
builds one row per legislator and merges the fresh rows into the
previously saved `legisladores.csv`. This project models the logic of
that update and proves its properties:

- **Name cleaning** (module `Names`). The scraper cleans the name read
  from each roster row: the link text is stripped, newlines become
  spaces, each whitespace run becomes one space, and the ends are
  stripped. Whitespace is Python's `str.isspace()` set. Both `\s` (for
  `str` patterns) and `str.strip()` use that set.
- **The merge** (module `Merge`, `combinar_legisladores`). Saved rows
  are indexed by name, and a later duplicate replaces an earlier one.
  The result follows the scrape row by row:
  - a name already on file gives a copy of the saved row, with the
    bloc, the image URL and the extraction date refreshed;
  - a new name is taken as scraped;
  - saved rows whose name is not in the scrape are not carried over.

  The two counters the program prints are returned by `Merge.Combine`.
- **The run** (module `Update`, `main` from the scrape on). Merging and
  saving happen only when the scrape returned rows, and `guardar_csv`
  refuses to write empty data. An empty scrape leaves the file as it was.

A row is the datatype `Records.Legislator`, with the eleven CSV columns
(the dict built at scraper_legiscaba.py:72-81 and the column list at
scraper_legiscaba.py:276-278).
Columns the scraper can leave as `None` are `Option<string>`: name,
profile URL, image URL, bloc and bloc URL. So are the columns a row may
lack: email, phone and committees. The merge is a method with two loops,
the dict construction and the walk over the scrape. It is proved equal
to the functions `IndexByName` and `MergeRows`, and its counters equal
`UpdatedCount` and `AddedCount`. The lemmas state what these mean.

The merge has no lifecycle flags, no activation or deactivation dates and
no append-only mode. It overwrites three columns and drops saved rows
whose name is missing from the scrape (`Merge.DroppedRow`).

## Model

| member | source | states |
|---|---|---|
| `Names.CleanScrapedName` | scraper_legiscaba.py:54-59 | no link gives no name; otherwise the name is the words of the link text joined by single spaces (`" ".join(text.split())`), so it is clean, no longer than the link text, and keeps its non-whitespace characters in order |
| `Names.CleanScrapedNameIdempotent` | scraper_legiscaba.py:54-59 | cleaning an already cleaned name changes nothing |
| `Names.ReplaceNewlines` | scraper_legiscaba.py:59 | `replace('\n', ' ')`: same length; each newline becomes a space and every other character stays |
| `Names.CollapseSpaces` | scraper_legiscaba.py:59 | `re.sub(r'\s+', ' ', ...)`: never longer than the input, empty only for empty input, starts with whitespace exactly when the input does, and ends with whitespace exactly when the input does |
| `Names.Strip` | scraper_legiscaba.py:59 | `strip()`: the result is the slice of the input left after removing leading and trailing whitespace, and nothing inside is changed; no whitespace remains at either end |
| `Names.Normalize` | scraper_legiscaba.py:59 | the cleaned name has no whitespace at either end, no two neighbouring whitespace characters, only plain spaces, and is no longer than the input |
| `Names.NormalizeKeepsNonSpace` | scraper_legiscaba.py:59 | cleaning removes or replaces whitespace only; every other character survives, in order |
| `Names.NormalizeFixesClean` | scraper_legiscaba.py:59 | a string already in clean form is returned unchanged |
| `Names.NormalizeIdempotent` | scraper_legiscaba.py:59 | cleaning twice gives the same result as cleaning once |
| `Names.CollapseSpacesShape` | scraper_legiscaba.py:59 | after `re.sub(r'\s+', ' ', ...)` whitespace appears only as single plain spaces |
| `Names.StripIsClean` | scraper_legiscaba.py:59 | stripping a string with single plain spaces leaves no whitespace at the ends and keeps the spacing |
| `Names.WordsNormalize` | scraper_legiscaba.py:59 | cleaning keeps the words (`s.split()`) of the input |
| `Names.NormalizeIsSplitJoin` | scraper_legiscaba.py:59 | the cleaned name equals `" ".join(s.split())`, an independent definition of the same cleaning |
| `Merge.IndexByName` | scraper_legiscaba.py:166 | every entry of the lookup table is filed under its own name |
| `Merge.IndexKeys` | scraper_legiscaba.py:166 | a name is in the lookup table exactly when some saved row carries it |
| `Merge.Refresh` | scraper_legiscaba.py:181-186 | the copy of the saved row takes bloc, image URL and extraction date from the scrape; the other eight columns keep their saved values |
| `Merge.MergeRow` | scraper_legiscaba.py:180-194 | a scraped name found in the table gives a refresh of that saved row; otherwise the scraped row itself |
| `Merge.Merged` | scraper_legiscaba.py:163-197 | one merged row per scraped row, the i-th being the merged row of the i-th scraped row |
| `Merge.IndexIsLast` | scraper_legiscaba.py:166 | when saved rows share a name, the table holds the last of them |
| `Merge.Combine` | scraper_legiscaba.py:163-197 | the loop computes the merge and both counters; one merged row per scraped row, and updated + added equals the number of scraped rows |
| `Merge.MergeRows` | scraper_legiscaba.py:169-194 | the merged list has as many rows as the scrape |
| `Merge.UpdatedCount` | scraper_legiscaba.py:172-190 | the `actualizados` counter never exceeds the number of scraped rows |
| `Merge.AddedCount` | scraper_legiscaba.py:171-194 | the added and updated counters sum to the number of scraped rows |
| `Merge.KeepsOrder` | scraper_legiscaba.py:176-194 | the i-th merged row has the name of the i-th scraped row |
| `Merge.MatchedRow` | scraper_legiscaba.py:180-190 | for a name on file, the merged row is the last saved row of that name with only bloc, image URL and extraction date taken from the scrape; the other eight columns keep their saved values |
| `Merge.UnmatchedRow` | scraper_legiscaba.py:191-194 | for a name not on file, the merged row is the scraped row unchanged |
| `Merge.DroppedRow` | scraper_legiscaba.py:176-197 | a saved row whose name is not in the scrape is absent from the result, and so is every row of its name |
| `Merge.CountAllKnown` | scraper_legiscaba.py:180-190 | when every scraped name is on file, every row counts as updated and none as added |
| `Merge.CountNoneKnown` | scraper_legiscaba.py:191-194 | when no scraped name is on file, every row counts as added and the merge is the scrape itself |
| `Merge.FirstRun` | scraper_legiscaba.py:163-197 | with nothing on file the merge returns the scrape, with 0 updated and all rows added |
| `Merge.MergedDistinct` | scraper_legiscaba.py:176-194 | the merged rows repeat no name exactly when the scrape repeats none |
| `Merge.Rerun` | scraper_legiscaba.py:163-197 | merging the same scrape again into the rows just saved changes nothing and counts every row as updated, when the scrape repeats no name |
| `Update.Load` | scraper_legiscaba.py:143-154 | with no file there are no saved rows; otherwise the rows on file |
| `Update.Save` | scraper_legiscaba.py:199-213 | writes exactly when the data is non-empty; otherwise the file is left as it was |
| `Update.Run` | scraper_legiscaba.py:254-281 | an empty scrape leaves the file untouched with zero counts; a non-empty one is always saved, as the merge of the scrape into the loaded rows, one row per scraped row |

## Left out

- HTTP requests, the User-Agent header and the HTML table parsing in `obtener_legisladores` and `obtener_detalles_legislador`: network I/O and a parsing library. The model starts from the parsed link text (`Names.CleanScrapedName`) and from the finished list of scraped rows.
- The clean-up of the mandate dates (lines 68-69) and the rest of the row construction: part of the HTML parsing. Rows are taken as given.
- The random pauses (`time.sleep(random.uniform(...))`): timing and randomness.
- `datetime.now()`: the extraction date is a column of the scraped rows, supplied by the caller.
- The profile-detail step in `main` (lines 261-270), guarded by the first-run test and the `OBTENER_DETALLES` environment variable: it depends on the network and the environment. `Update.Run` takes the scrape after that step, and `Records.Legislator` has the email, phone and committees columns it may fill.
- The CSV text format: the file is modelled as a list of rows. Not modelled: a `None` written as an empty cell and read back as `""`; keys outside the eleven columns, which `csv.DictWriter` would refuse; and a read error, which makes `cargar_legisladores_existentes` return no rows. `Update.Load` covers only the missing-file case.
- Write errors in `guardar_csv` (lines 215-217): an OS error makes it return false, possibly after `open(..., 'w')` has already emptied the file. `Update.Save` fails only on empty data; the file system is not modelled.
- `generar_analisis`: pandas counts, a regex cast to float, and file writes.
- The progress messages `print`ed by every function, including the two counters. `Merge.Combine` returns the counters instead.
- Object identity: the source appends unmatched scraped dicts by reference and copies matched ones before writing to them. Rows are values here, so saved rows cannot change (the source guarantees this with the copy), and aliasing is not modelled.
- `scraper.py` and `scraper.js`: separate scraping scripts made only of network and parsing plumbing.
