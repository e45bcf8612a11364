/** `LibraryDatabase`: the in-memory list of books, the ISBN-validation
    flag, the warnings of the last load, and the database file, which is
    read once when the database is opened and rewritten, sorted by year, on
    every save. */
module Library {
  import opened Text
  import opened Isbn
  import opened Records
  import opened Persistence
  import opened Pagination

  /** What `add` reports. */
  datatype AddOutcome =
    | MissingField                              // "All fields are required"
    | BadYear                                   // "Year must be a valid number"
    | InvalidIsbn                               // "Invalid ISBN format ..."
    | Added(book: Book, kind: Option<Kind>)     // added; `kind` is the ISBN kind when validated

  /** The checks `add` makes, in the order it makes them: every field
      non-empty, the year an integer, and, only when validation is on, an
      ISBN of the ISBN-10 or ISBN-13 shape. */
  function CheckAdd(title: string, author: string, isbn: string, year: string, validateIsbn: bool): (r: AddOutcome)
    ensures r == MissingField <==> title == [] || author == [] || isbn == [] || year == []
    ensures r == BadYear <==>
      title != [] && author != [] && isbn != [] && year != [] && ParseInt(year).None?
    ensures r == InvalidIsbn <==>
      && title != [] && author != [] && isbn != [] && year != [] && ParseInt(year).Some?
      && validateIsbn && !Isbn10Shape(Clean(isbn)) && !Isbn13Shape(Clean(isbn))
    ensures r.Added? <==>
      && title != [] && author != [] && isbn != [] && year != [] && ParseInt(year).Some?
      && (validateIsbn ==> Isbn10Shape(Clean(isbn)) || Isbn13Shape(Clean(isbn)))
    ensures r.Added? ==> r.book == Book(title, author, isbn, ParseInt(year).value)
    ensures r.Added? ==>
      && (r.kind == Some(Isbn10) <==> validateIsbn && Isbn10Shape(Clean(isbn)))
      && (r.kind == Some(Isbn13) <==> validateIsbn && Isbn13Shape(Clean(isbn)))
      && (r.kind == None <==> !validateIsbn)
  {
    if title == [] || author == [] || isbn == [] || year == [] then MissingField
    else
      match ParseInt(year)
      case None => BadYear
      case Some(y) =>
        if validateIsbn then
          var (valid, kind) := ValidateIsbnFormat(isbn);
          if !valid then InvalidIsbn else Added(Book(title, author, isbn, y), kind)
        else Added(Book(title, author, isbn, y), None)
  }

  class LibraryDatabase {
    var books: seq<Book>
    var validateIsbn: bool
    var loadWarnings: seq<Warning>
    /** The lines of the database file. A file that does not exist reads as
        no lines. */
    var file: seq<string>

    /** Once the database holds a book, the file holds exactly the saved
        form of its books. */
    ghost predicate Consistent()
      reads this
    {
      books != [] ==> file == SaveLines(books)
    }

    /** Opens the database on a file with the given lines: no books, ISBN
        validation off, then a load. */
    constructor(initialFile: seq<string>)
      ensures books == LoadBooks(initialFile)
      ensures loadWarnings == LoadWarnings(initialFile)
      ensures !validateIsbn
      ensures file == if books == [] then initialFile else SaveLines(books)
      ensures Consistent()
    {
      file := initialFile;
      books := [];
      validateIsbn := false;
      loadWarnings := [];
      new;
      LoadFromFile();
    }

    /** `_load_from_file`: appends the book of every line that parses, in
        file order, records a warning for every non-blank line that does
        not, and rewrites the file sorted by year when there is a book. */
    method LoadFromFile()
      modifies this`books, this`loadWarnings, this`file
      ensures books == old(books) + LoadBooks(old(file))
      ensures old(books) == [] ==> books == LoadBooks(old(file))
      ensures loadWarnings == LoadWarnings(old(file))
      ensures file == if books == [] then old(file) else SaveLines(books)
    {
      var lines := file;
      var invalid: seq<Warning> := [];
      for i := 0 to |lines|
        invariant file == lines
        invariant books == old(books) + LoadBooks(lines[..i])
        invariant invalid == LoadWarnings(lines[..i])
      {
        var r := ParseLine(lines[i]);
        LoadPrefixStep(lines, i, r);
        if r.Parsed? {
          books := books + [r.book];
        } else if r.Rejected? {
          invalid := invalid + [Warning(i + 1, r.text, r.reason)];
        }
      }
      assert lines[..|lines|] == lines;
      EmptyPrefix(LoadBooks(lines));
      loadWarnings := invalid;
      if books != [] {
        SaveToFile();
      }
    }

    /** `_save_to_file`: truncates the file and writes the books sorted by
        year, one line each. The list of books itself is not reordered. */
    method SaveToFile()
      modifies this`file
      ensures file == SaveLines(books)
    {
      var sorted := SortByYear(books);
      file := [];
      for i := 0 to |sorted|
        invariant file == Serialize(sorted[..i])
      {
        SerializePrefixStep(sorted, i);
        file := file + [ToFileFormat(sorted[i])];
      }
      assert sorted[..|sorted|] == sorted;
    }

    /** `add`: either changes nothing, or appends the one new book at the end
        and saves. */
    method Add(title: string, author: string, isbn: string, year: string) returns (outcome: AddOutcome)
      modifies this
      ensures outcome == CheckAdd(title, author, isbn, year, old(validateIsbn))
      ensures outcome.Added? ==> books == old(books) + [outcome.book] && file == SaveLines(books)
      ensures !outcome.Added? ==> books == old(books) && file == old(file)
      ensures validateIsbn == old(validateIsbn) && loadWarnings == old(loadWarnings)
      ensures old(Consistent()) ==> Consistent()
    {
      if title == [] || author == [] || isbn == [] || year == [] {
        return MissingField;
      }
      var parsed := ParseInt(year);
      if parsed.None? {
        return BadYear;
      }
      var kind: Option<Kind> := None;
      if validateIsbn {
        var valid;
        valid, kind := ValidateIsbnFormat(isbn).0, ValidateIsbnFormat(isbn).1;
        if !valid {
          return InvalidIsbn;
        }
      }
      var book := Book(title, author, isbn, parsed.value);
      books := books + [book];
      SaveToFile();
      outcome := Added(book, kind);
    }

    /** `toggle_validation`: flips the ISBN-validation flag and nothing else. */
    method ToggleValidation()
      modifies this`validateIsbn
      ensures validateIsbn == !old(validateIsbn)
      ensures old(Consistent()) ==> Consistent()
    {
      validateIsbn := !validateIsbn;
    }

    /** The arithmetic of `list`: the page of the year-sorted books to show
        and whether there is more than one page (false for no books). */
    method List(page: int, pageSize: int) returns (morePages: bool, view: Option<Page<Book>>)
      requires pageSize > 0
      ensures view == Paginate(SortByYear(books), page, pageSize)
      ensures view.None? <==> books == []
      ensures view.Some? ==> SortedByYear(view.value.items)
      ensures morePages <==> |books| > pageSize
    {
      if books == [] {
        return false, None;
      }
      var sorted := SortByYear(books);
      view := Paginate(sorted, page, pageSize);
      morePages := view.value.totalPages > 1;
    }
  }

  lemma EmptyPrefix(s: seq<Book>)
    ensures [] + s == s
  {
  }
}
