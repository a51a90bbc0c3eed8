# Setlist typesetter: verified model of the key, transpose and booklet logic

This project models the decision logic of `typeset_setlist.py`. The script
compiles a printable song booklet ("setlist") from a MobileSheets catalog.
For each song it reads the document key and the target key from the catalog
and works out a semitone transpose amount. It then has chordpro render the
song to HTML with that amount and strips one leading `*` from every chord
cell. Finally it merges the per-song PDFs into one booklet, putting in blank
pages so that songs with an even page count start on a left-hand page in
duplex printing.

Modules, one per component of the script:

- `KeyModel` (`key_model.dfy`): `determine_key` and the `htfc` table with its
  lookup.
- `Transpose` (`transpose.dfy`): the transpose arithmetic inside `main`.
- `Typeset` (`typeset.dfy`): `generate_path`, the chordpro argument list, and
  the chord-cell repair of `generate_path_pdf`.
- `Paginator` (`paginator.dfy`): the blank-page merge loop at the end of `main`.
- `Setlist` (`setlist.dfy`): the row filter and render loop of `main`, and
  the whole pipeline from catalog rows to booklet pages.
- `Wrappers` (`wrappers.dfy`): `Option`, for Python's `None`.

Three behaviours of the code that a reader might not expect, all modelled
as written:

- A target key spelt with a trailing `b` always gets its shift moved down an
  octave, even when the interval is 0. An identical flat target gets −12,
  and the shift ranges over [−12, 11].
- The code has no first-song exemption from the blank-page rule. The
  running page count starts at 0, so a first song with an even page count
  is preceded by a blank. Page counts `[2, 2]` give `B S1 S1 S2 S2`, and
  page counts `[4, 3, 2]` give 11 pages with two blanks.
- The `*` strip removes one character per pass and is not idempotent:
  `"**G"` becomes `"*G"`, then `"G"`.

## Model

| member | source | states |
|---|---|---|
| KeyModel.DetermineKey | typeset_setlist.py:19-24 | a negative letter index spells "C" whatever the accidentals; an index 0..6 spells the letter followed by 'b', '#' or nothing by the accidental's sign (the literal table Spell); the spelling ends in 'b' exactly when the index is a letter and the accidental count is negative |
| KeyModel.KeyRoundTrip | typeset_setlist.py:19-45 | every spelling in the table is produced by determine_key from its own catalog letter index and accidental count |
| KeyModel.MissingSpellings | typeset_setlist.py:19-49 | for letter indices 0..6 the lookup fails exactly for Cb, Fb, E# and B#, the four spellings determine_key can make that the table lacks |
| KeyModel.HalfTonesFromC | typeset_setlist.py:48-49 | the lookup is defined only on the table's spellings and always gives an offset in 0..11 |
| KeyModel.TableSize | typeset_setlist.py:27-45 | the table holds exactly seventeen distinct spellings (counted with the helper DistinctCardinality) |
| KeyModel.TableAgreesWithPitch | typeset_setlist.py:27-45 | each table entry equals the natural letter's semitones above C plus the accidental (−1, 0 or +1) |
| KeyModel.EnharmonicPairs | typeset_setlist.py:27-45 | C#/Db, D#/Eb, F#/Gb, G#/Ab and A#/Bb share an offset, and the offsets cover all twelve pitch classes |
| KeyModel.SameOffsetSamePitch | typeset_setlist.py:27-45 | two spellings have the same offset exactly when letter pitch plus accidental agree |
| KeyModel.SpellingPitch | typeset_setlist.py:27-45 | each table entry, read back as a catalog letter index and accidental count, is the letter's natural offset plus that count |
| Transpose.ResolveShift | typeset_setlist.py:156-161 | the shift is congruent to target minus document offset modulo 12; it lies in [0, 11] for a target not spelt flat and in [−12, −1] for a flat-spelt one |
| Transpose.ShiftIsUnique | typeset_setlist.py:158-161 | any integer in the target's window congruent to the interval is the resolved shift, so the contract pins the result |
| Transpose.SameKeyShift | typeset_setlist.py:158-161 | document key equal to target key gives 0, or −12 when the key is spelt flat |
| Transpose.EnharmonicTargets | typeset_setlist.py:158-161 | a flat-spelt target and a non-flat target of the same pitch get shifts exactly 12 apart |
| Typeset.IntStringRoundTrip | typeset_setlist.py:60-64 | the decimal text the f-strings write for an integer reads back as that integer |
| Typeset.FileName | typeset_setlist.py:53 | the file name is the path's tail after its last '/', and holds no '/' |
| Typeset.Stem | typeset_setlist.py:53 | the stem is a '/'-free prefix of the file name; a suffix is dropped exactly when the name's last '.' is neither its first nor its last character, and then the cut is at that last '.' |
| Typeset.GeneratePath | typeset_setlist.py:52-56 | the path starts with the temporary directory and '/', ends with the suffix; GeneratePathInTempdir and GeneratePathOfChordPro give the rest |
| Typeset.GeneratePathInTempdir | typeset_setlist.py:52-56 | the generated file sits directly in the temporary directory: no '/' between the directory's '/' and the suffix |
| Typeset.GeneratePathOfChordPro | typeset_setlist.py:52-56 | a source `dir/base.chordpro` gives the temporary file `tempdir/base` + suffix, even when base holds dots |
| Typeset.LastIndexOfIsLast | typeset_setlist.py:53 | the last occurrence of a character is the one the path-stem computation splits at |
| Typeset.HtmlFilename | typeset_setlist.py:60 | the HTML file lies under the temporary directory and ends in .html |
| Typeset.HtmlFilenameInjective | typeset_setlist.py:60 | two rows of the same source get different HTML files: the file name determines the row position |
| Typeset.TransposeOption | typeset_setlist.py:64 | the option starts with "--transpose=" and carries a '-' exactly for a negative amount; TransposeOptionRoundTrip reads the amount back |
| Typeset.TypesetArgs | typeset_setlist.py:59-65 | the argument list starts with chordpro, --generate=HTML, --output=<html file>, --diagrams=none, --no-strict and ends with the source path; it has 7 entries, the sixth being --transpose=N, exactly when a transpose is given and is not 0, and 6 otherwise |
| Typeset.TransposeOptionRoundTrip | typeset_setlist.py:63-64 | the transpose option is "--transpose=" followed by text that reads back as the amount |
| Typeset.StripMarker | typeset_setlist.py:78-81 | a cell starting with '*' becomes the rest of the cell (putting the '*' back restores it); any other cell is unchanged |
| Typeset.StripAll | typeset_setlist.py:77-81 | the repaired row has the same number of cells, each the repair of the cell at the same position |
| Typeset.StripTwiceIff | typeset_setlist.py:78-81 | repairing twice equals repairing once exactly when the cell does not start with "**" |
| Typeset.StripNotIdempotent | typeset_setlist.py:78-81 | "**G" repairs to "*G" and then to "G" |
| Typeset.RepairChordCells | typeset_setlist.py:77-81 | the row's cells rewritten in place are the repaired cells of the old row, count and order kept |
| Typeset.RepairChordTable | typeset_setlist.py:76-81 | every chords row of the document is repaired in place, each row's cells by the same rule |
| Setlist.IsChordProRow | typeset_setlist.py:139-142 | the row filter: path present and ending in .chordpro; OutputCharacterization and RequestsComplete state its effect |
| Setlist.TransposeAmount | typeset_setlist.py:153-161 | a row's amount lies in [−12, 11], is congruent to target minus document offset modulo 12, and is negative exactly when the target has a letter and a negative accidental count |
| Setlist.Requests | typeset_setlist.py:135-163 | each render call is for a row with a .chordpro path, passes `dir/path`, the row's transpose amount and the row's position, and the calls come in strictly increasing row order |
| Setlist.RequestsComplete | typeset_setlist.py:139-163 | every row whose path is present and ends in .chordpro is rendered |
| Setlist.Survivors | typeset_setlist.py:163-165 | the kept renders are renders that returned a file, taken from the requests, and they keep request order |
| Setlist.SurvivorsComplete | typeset_setlist.py:163-165 | every render that returned a file is kept |
| Setlist.OutputCharacterization | typeset_setlist.py:135-165 | a row's file reaches output_pdfs exactly when its path is present, ends in .chordpro and its render returned a file; the kept rows are in catalog order with distinct positions |
| Setlist.RenderSetlist | typeset_setlist.py:134-165 | the loop makes exactly the requests of `Requests` and collects the file names of exactly the renders that returned one, in order |
| Setlist.TypesetSetlist | typeset_setlist.py:134-209 | the booklet is the paginated merge of the page counts of the rendered files only; failed renders add no pages and do not move the running count |
| Paginator.NeedsBlank | typeset_setlist.py:201-202 | the blank rule: both page counts even, with no first-song exemption; BlankBefore, BlankMakesOdd and EvenSongsStartOnEvenPages state its consequences |
| Paginator.BlankBefore | typeset_setlist.py:201-204 | the inserted pages are one blank exactly when the song's page count and the booklet's current page count are both even, and nothing otherwise |
| Paginator.Paginate | typeset_setlist.py:195-209 | the merge loop builds exactly the booklet of `Booklet`: per song, the optional blank, then the song's pages |
| Paginator.BookletSize | typeset_setlist.py:195-209 | the booklet has the sum of the song page counts plus one page per blank, and at most one blank per song |
| Paginator.EmptyBooklet | typeset_setlist.py:195-209 | no rendered songs give an empty booklet |
| Paginator.PrefixBooklet | typeset_setlist.py:195-209 | the booklet after the first s songs is a prefix of the final booklet: later songs never change earlier pages |
| Paginator.SongSlice | typeset_setlist.py:195-209 | the stretch between song s's start and song s+1's start is the blank (when the rule asks for it) followed by song s's pages, contiguous and in order |
| Paginator.SongPagesAt | typeset_setlist.py:195-209 | page k of song s sits at song s's first index plus k |
| Paginator.EvenSongsStartOnEvenPages | typeset_setlist.py:195-209 | every song with an even, non-zero page count starts at an odd 0-based index, the first song included |
| Paginator.BlankMakesOdd | typeset_setlist.py:201-204 | before an even-length song the rule always leaves an odd start index |
| Paginator.TwoTwoPageSongs | typeset_setlist.py:195-209 | page counts [2, 2] give a blank, the two pages of song 1, the two pages of song 2 |
| Paginator.FourThreeTwo | typeset_setlist.py:195-209 | page counts [4, 3, 2] give 11 pages with blanks at indices 0 and 8 |

## Left out

- The chordpro subprocess, its exit status, the HTML file it writes, the weasyprint HTML-to-PDF step and the pypdf reader (typeset_setlist.py:66-70, 73-75, 83-91). These are foreign calls. Rendering is a total function parameter from a render request to `Option<string>`. `None` stands for a non-zero chordpro exit status. The function gives the same answer for the same request.
- The page count of a PDF is a function parameter `string -> nat`. The blank PDF counts as exactly one page.
- PdfWriter writing and closing the booklet file (typeset_setlist.py:170, 211-212): I/O.
- The sqlite connection and query, dict_factory, argparse, the copies of the CSS file, the fixed temporary directory and logging (typeset_setlist.py:94-133): I/O and plumbing. Catalog rows are an input sequence of records whose key columns are integers.
- NULL key columns: a NULL letter index (Key or Transpose) raises TypeError at typeset_setlist.py:20. A NULL accidental count (TransposeKey or UseSharps) raises TypeError at typeset_setlist.py:23 only when its letter index is 0 or more. With a negative letter index the key is "C" and the run goes on, because determine_key returns at typeset_setlist.py:20-21 before reading the count. The model's integer fields cannot represent a NULL count, so this last case is not modelled.
- BeautifulSoup parsing and prettify (typeset_setlist.py:73-84). Only the cell-text transform is modelled. Each chords row is an array of cell strings, and the document is a sequence of distinct such arrays. A cell whose `td.string` is None would raise AttributeError at typeset_setlist.py:79; here a cell's text is always a string.
- Typeset.Stem: takes the text after the last '/' and then pathlib's suffix rule (the last '.' of the name, when it is neither its first nor its last character). pathlib's collapsing of repeated or trailing separators and of '.' components is not modelled.
- blank_page.py: a single weasyprint call, with no logic. parse_test.py: a scratch script whose `*` strip is the same as typeset_setlist.py:76-81.
- Setlist.CatalogDecodes: rows that reach key decoding must have letter indices of at most 6 and spellings in the table. The source raises IndexError or KeyError for such rows and aborts the run. The model makes this a precondition instead of modelling the crash.
