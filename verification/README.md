# Book library database — a Dafny model

This project models the store at the heart of `book_library.py`, a small
personal book catalogue. A `Book` is a record of title, author, ISBN and
an integer year. A `LibraryDatabase` holds four things:

- the list of books;
- an ISBN-validation flag, off by default;
- the warnings collected when the file was loaded;
- the backing file.

The backing file has one line per book, in the form `title/author/isbn/year`.

The model covers these behaviours:

- **Load.** When the database opens, it parses the file line by line. Blank
  lines are skipped. Each line that parses becomes a book, appended in file
  order. Each other non-blank line becomes a warning: its 1-based line number,
  its stripped text and the reason it was rejected. If at least one book was
  loaded, the file is rewritten at once.
- **Save.** Every save truncates the file and writes the books sorted by year
  with Python's stable `sorted`. The in-memory list itself is never reordered.
- **ISBN check.** `_validate_isbn_format` checks only the *shape* of an
  ISBN-10 or an ISBN-13 (digits, a final `X`, the 978/979 prefix). It ignores
  hyphens and spaces. It does not verify the check digit of ISO 2108.
- **Add.** `add` checks, in order, that every field is present, that the year
  is an integer, and, when validation is on, the ISBN shape. It then either
  changes nothing, or appends one book and saves.
- **List.** `list` works out the page count and clamps the requested page.
  It then takes the window of the year-sorted books for that page, and reports
  whether there is more than one page.
- **Toggle.** `toggle_validation` flips the flag.

The modules follow the program's layers:

- `Text`: the Python string primitives the file format relies on: `strip()`
  with Python's full whitespace set, `split('/')`, `replace`, `int()` and
  `str()` on integers.
- `Records`: `Book`, its line format and the parsing of one line.
- `Isbn`: the shape check.
- `Persistence`: what a load collects and what a save writes, as functions of
  the file's lines.
- `Pagination`: the page arithmetic of `list`.
- `Library`: the `LibraryDatabase` class. Its constructor and its load, save,
  add, toggle and list methods change its fields in place, as the source
  does. The load and save loops carry invariants tying them to the
  `Persistence` functions.

The file is modelled as a sequence of strings: one element per line read, and
one element per book written. A book whose field holds a line break is still
one element when written, although the real file would then hold two lines
(see "## Left out").

### Where the model follows the code rather than what one might expect

- **Books are not sorted in memory after a load.** One might expect the list
  sorted by year after a load, but the code only writes a sorted *file*:
  `self.books` keeps file order. The model follows the code.
  `Persistence.LoadKeepsFileOrder` shows that two books written out of year
  order load out of year order.
- **The format has no escaping.** A `/` in a title, author or ISBN is
  accepted by `add` and written as it is. The line then no longer has four
  fields, so the next load drops the book with a warning. If another line
  still loads a book, the load-time rewrite then removes the line from the
  file; if none does, the rewrite does not run and the line stays. `Records.SlashInFieldIsNotRecovered` states this.
- **Whitespace can be lost.** `strip()` removes leading whitespace from a
  title. The round trip is therefore stated for *storable* books: no `/` or
  line break in the first three fields, and no leading whitespace in the
  title (`Records.Storable`).

## Model

| member | source | states |
|---|---|---|
| Records.ToFileFormat | book_library.py:23-25 | the record line `title/author/isbn/year`; its meaning is carried by `Records.SerializeThenParse`, `Records.ParseThenSerialize` and `Records.SplitFileFormat` |
| Records.ParseLine | book_library.py:46-56 | the fate of one line; its cases are stated by `Records.ParseLineCases`, `Records.ParseLineRejected`, `Records.ParsedWithoutSeparator` and `Records.ParsedFields` |
| Records.ParseLineCases | book_library.py:47-56 | a line is blank iff all of it is whitespace; a rejected line carries its stripped, non-empty text; it is rejected as "expected 4 fields" iff it does not split into four parts; it is parsed iff it splits into four parts whose fourth passes `int()`, giving the book of the first three parts and that year; any other rejection names the fourth part as the year that is not an integer; a parsed book has no `/` in title, author or isbn |
| Records.ParseLineRejected | book_library.py:47-56 | a rejected line carries its stripped, non-empty text; the "expected 4 fields" rejection happens exactly for a non-blank line that does not split into four parts |
| Records.ParsedWithoutSeparator | book_library.py:48-51 | a parsed book has no `/` in title, author or isbn |
| Records.SerializeThenParse | book_library.py:48-51 | parsing the line of a storable book gives back the same book |
| Records.ParseThenSerialize | book_library.py:48-51 | a parsed line whose year field is canonical is rebuilt exactly by `to_file_format`, up to the whitespace `strip()` removed |
| Records.ParsedBookStorable | book_library.py:47-52 | a book parsed from a line without a line break is storable |
| Records.SlashInFieldIsNotRecovered | book_library.py:25 | a book with `/` in a field does not come back from its own line |
| Text.Strip | book_library.py:47 | the stripped text is no longer than the line and starts and ends with non-whitespace unless empty |
| Text.StripEmptyIffBlank | book_library.py:47 | `line.strip()` is empty exactly when the line is all whitespace |
| Text.StripChars | book_library.py:48 | stripping only removes characters |
| Text.SplitParts | book_library.py:48 | `split('/')` gives at least one part, none containing `/`, and joining them with `/` gives the text back |
| Text.SplitFour | book_library.py:48-49 | four `/`-free fields joined by `/` split into exactly those four parts |
| Text.Split | book_library.py:48 | `str.split('/')`; pinned down by `Text.SplitParts` and `Text.SplitFour` |
| Text.Remove | book_library.py:77 | `str.replace(c, "")`: the result has no `c`, keeps every other character with its multiplicity, and (`Text.RemoveConcat`) distributes over concatenation |
| Text.IntToString | book_library.py:25 | `str(n)`: a `-` only in front, digits otherwise; read back by `Text.IntToStringRoundTrip` |
| Text.ParseIntAccepts | book_library.py:21 | `int()` succeeds exactly (up to CPython's digit limit, see "## Left out") on a text whose numeral, after the whitespace `int()` skips, is an optional sign and ASCII digits, and gives their value with that sign |
| Text.IntWhitespaceExamples | book_library.py:21 | `int()` does not skip U+001C before the digits, though `strip()` does, whether or not the text also holds non-ASCII whitespace; it does skip a no-break space |
| Text.IntToStringRoundTrip | book_library.py:21 | `int(str(n)) == n` for every integer |
| Text.TrimLeftSuffix | book_library.py:21 | left trimming drops exactly the longest prefix of whitespace of the chosen set: that of `strip()` or that of `int()` |
| Text.TrimRightPrefix | book_library.py:21 | right trimming drops exactly the longest suffix of whitespace of the chosen set |
| Text.IntText | book_library.py:21 | the text `int()` reads its numeral from: the text without the `str.isspace()` characters at its ends, except that U+001C to U+001F are not skipped |
| Text.ParseInt | book_library.py:21 | `int()` succeeds only when something is left after the whitespace it skips (`Text.IntText`) |
| Persistence.LoadBooks | book_library.py:46-52 | the books a load collects; stated by `Persistence.LoadSnoc`, `Persistence.LoadAccountsForEveryLine` and `Persistence.LoadSerialized` |
| Persistence.LoadWarnings | book_library.py:46-59 | the warnings a load collects; stated by `Persistence.WarningsOf` and `Persistence.LoadWarningsDescribeLines` |
| Persistence.SaveLines | book_library.py:69-72 | the lines a save writes; stated by `Persistence.ReloadSaved` and `Persistence.ReopenRewritesSameFile` |
| Persistence.WarningsOf | book_library.py:46-56 | every warning names a line by its 1-based number, that line was rejected with the warning's text and reason, and warnings are in increasing line order |
| Persistence.LoadWarningsDescribeLines | book_library.py:46-59 | each load warning carries the stripped, non-empty text of the line it names and the reason that line was rejected; warnings come in line order |
| Persistence.LoadSnoc | book_library.py:46-56 | one more line adds its book at the end, or one warning numbered after the earlier lines, or nothing if blank |
| Persistence.LoadAccountsForEveryLine | book_library.py:46-56 | books loaded plus warnings equals the number of non-blank lines |
| Persistence.InsertByYearSorted | book_library.py:69 | inserting into a year-sorted list keeps it sorted and adds exactly the one book |
| Persistence.InsertByYearPerm | book_library.py:69 | an insertion adds exactly the one book, whatever the order of the list |
| Persistence.SortByYear | book_library.py:69 | `sorted(books, key=year)` is in non-decreasing year order and a permutation of `books` |
| Persistence.SortIsStable | book_library.py:69 | the books of each year keep their relative order |
| Persistence.SortSortedIsIdentity | book_library.py:69 | sorting a year-sorted list changes nothing |
| Persistence.LoadSerialized | book_library.py:46-52 | loading the lines of storable books gives those books back, in order, with no warnings |
| Persistence.ReloadSaved | book_library.py:41-72 | reloading what a save wrote gives the books sorted by year and no warnings |
| Persistence.ReopenRewritesSameFile | book_library.py:61-72 | reopening a saved file rewrites it with the same lines |
| Persistence.LoadedBooksStorable | book_library.py:46-52 | every book loaded from lines without line breaks is storable |
| Persistence.RewriteAfterLoadIsFinal | book_library.py:58-72 | the load-time rewrite has one line per loaded book, reloads to those books sorted with no warnings (rejected lines are gone for good), and is not changed by a second open |
| Persistence.LoadKeepsFileOrder | book_library.py:52 | a load appends books in file order and does not sort them |
| Persistence.OneGoodLineOneShortLine | book_library.py:46-56 | one good line and one three-field line load one book and one "expected 4 fields" warning for line 2 |
| Persistence.ShortLineRejected | book_library.py:49-56 | a line of three fields is rejected for its field count |
| Persistence.LoadAppendRejected | book_library.py:54-56 | a rejected line adds a warning and no book |
| Persistence.LoadAppendStorable | book_library.py:50-52 | the line of a storable book adds that book and no warning |
| Isbn.Clean | book_library.py:77 | the cleaned ISBN has no `-` or space and keeps every other character with its multiplicity |
| Isbn.ValidateIsbnFormat | book_library.py:74-93 | `(true, ISBN-10)` iff the cleaned string is nine digits then a digit or `X`/`x`; `(true, ISBN-13)` iff it is thirteen digits starting 978 or 979; `(false, None)` otherwise; the flag is true iff a kind is given |
| Isbn.SeparatorInsensitive | book_library.py:77 | inserting a hyphen or a space anywhere never changes the verdict |
| Isbn.CleanIdempotent | book_library.py:77 | cleaning twice is cleaning once, and validating a cleaned ISBN gives the same verdict |
| Isbn.ValidateWithoutSeparators | book_library.py:77-93 | an ISBN without hyphens or spaces is judged on its own characters |
| IsbnExamples.Isbn13Example | book_library.py:87-91 | "9783161484100" is an ISBN-13 |
| IsbnExamples.Isbn10Example | book_library.py:80-84 | "0306406152" is an ISBN-10 |
| IsbnExamples.TooShortExample | book_library.py:93 | "12345" is rejected |
| Pagination.TotalPages | book_library.py:130 | the page count is the least `t >= 1` with `n <= t * page_size` |
| Pagination.ClampPage | book_library.py:133 | the page lies in `[1, total]`, is 1 below range, the last page above it, and unchanged inside it |
| Pagination.Paginate | book_library.py:124-138 | nothing for an empty listing; otherwise a clamped page whose window `0 <= start < end <= n` holds at most `page_size` items from `(page-1)*page_size`, reaches the end exactly on the last page, and is the slice of the sorted books; more than one page iff `n > page_size` |
| Pagination.EveryItemOnItsPage | book_library.py:136-138 | item `k` appears on page `k / page_size + 1`, at its place |
| Pagination.PagesAdjoin | book_library.py:136-137 | each page ends where the next one starts |
| Pagination.TwentyFiveBooksExample | book_library.py:128-138 | 25 books at 10 a page: 3 pages; page 0 reads as 1, page 99 as 3, showing the last 5 |
| Library.CheckAdd | book_library.py:98-117 | a missing field is reported first, then a non-integer year, then (only with validation on) a malformed ISBN, each exactly when it applies; otherwise the book of the given fields and parsed year is added, with the ISBN kind when validated |
| Library.LibraryDatabase.constructor | book_library.py:34-39 | starts with no books and validation off, then loads: the books and warnings of the file, the file rewritten sorted when a book was loaded, and the file consistent with the books |
| Library.LibraryDatabase.LoadFromFile | book_library.py:41-65 | appends the books of the file in order, sets the warnings, and rewrites the file sorted by year only if there is a book |
| Library.LibraryDatabase.SaveToFile | book_library.py:67-72 | the file becomes the books sorted by year, one line each; nothing else changes |
| Library.LibraryDatabase.Add | book_library.py:95-120 | the outcome is that of the checks; on success the book is appended at the end and the file saved, otherwise books and file are unchanged; the flag and warnings never change; consistency is kept |
| Library.LibraryDatabase.ToggleValidation | book_library.py:166-171 | the flag is negated and nothing else changes |
| Library.LibraryDatabase.List | book_library.py:122-164 | no page for an empty database; otherwise the page of the year-sorted books, which is itself sorted; the result is true iff there are more books than fit on one page |

## Left out

- Console output: the messages, the rich `Table` and `Panel`, and the display truncation of fields to 40/30/20 characters (book_library.py:99-171, 174-223). The outcome of `add` is returned as a value (`AddOutcome`) in place of the printed message.
- The interactive shell: `add_book_interactive`, `main`, the prompts and `sys.argv` (book_library.py:226-332).
- Real file I/O. The file is its sequence of lines. A missing file reads as no lines. This gives the same result as the source wherever `_load_from_file` is called, because `books` is then empty. Text-mode decoding, universal newlines and the trailing newline of each written line are not modelled.
- I/O errors on save are not modelled.
- Line breaks inside a field: `add` checks only that each field is non-empty, so a title, author or ISBN may hold `\n` or `\r`. The source then writes that record across two physical lines, which a later load reads as two lines. The model writes it as one element of the file. The load and round-trip lemmas are therefore stated for lines without line breaks (`Records.NoLineBreak`, `Records.Storable`).
- Text.ParseInt: models `int()` on ASCII digits with an optional sign and the whitespace CPython skips around them. It does not accept `_` digit separators or non-ASCII digits. The ISBN check's `isdigit()` is ASCII only too. It also has no digit limit: CPython 3.11 and later (and the matching security releases of 3.7 to 3.10) raise `ValueError` on a decimal numeral of more than 4300 digits, by default and configurable at run time. Such a year is rejected by the source but accepted by the model (`Text.ParseIntAccepts`, `Library.CheckAdd`, `Records.ParseLine`).
- The message of the exception for a non-integer year is not modelled. The reason keeps the offending field instead.
- Library.LibraryDatabase.List: `page_size` must be positive, as the only caller passes 10. A zero size would raise in the source.
- The title, author and ISBN truncation inside `list` is presentation.
- Book.__repr__ is not modelled.
- IsbnExamples: the hyphenated spellings of the examples are covered by `Isbn.SeparatorInsensitive` rather than evaluated directly.
