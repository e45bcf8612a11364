/** A book record and its one-line file format `title/author/isbn/year`
    (`Book` and `Book.to_file_format` in book_library.py, and the per-line
    parsing inside `LibraryDatabase._load_from_file`). */
module Records {
  import opened Text

  /** A record is never changed after it is made; the year is an integer. */
  datatype Book = Book(title: string, author: string, isbn: string, year: int)

  /** `Book.to_file_format`: the four fields joined by `/`, with no escaping. */
  function ToFileFormat(b: Book): string
  {
    b.title + "/" + b.author + "/" + b.isbn + "/" + IntToString(b.year)
  }

  /** Why a non-blank line was dropped. `InvalidFormat` carries the text
      "Invalid format (expected 4 fields)"; the text for a year that is not
      an integer is the message of Python's exception, kept opaque here
      together with the offending field. */
  datatype Reason = InvalidFormat | YearNotInteger(field: string)

  /** A load-time warning: the 1-based line number, the stripped line and the reason. */
  datatype Warning = Warning(lineNum: nat, text: string, reason: Reason)

  /** What one line of the file turns into. */
  datatype LineResult = Blank | Parsed(book: Book) | Rejected(text: string, reason: Reason)

  /** The parsing of one file line: blank lines are skipped; otherwise the
      stripped line must split on `/` into exactly four parts whose fourth
      is an integer. What it promises is `ParseLineCases`. */
  function ParseLine(line: string): LineResult
  {
    var text := Strip(line);
    if text == [] then Blank
    else
      var parts := Split(text, '/');
      if |parts| != 4 then Rejected(text, InvalidFormat)
      else
        match ParseInt(parts[3])
        case Some(y) => Parsed(Book(parts[0], parts[1], parts[2], y))
        case None => Rejected(text, YearNotInteger(parts[3]))
  }

  /** A line is blank exactly when it is all whitespace; a rejected line
      carries its stripped, non-empty text; it is rejected for its field
      count exactly when it does not have four fields; it is parsed exactly
      when it has four fields whose fourth passes `int()`, into the book of
      the first three fields and that year, and is otherwise rejected for
      its year field; and a parsed book never has the separator in a field. */
  lemma ParseLineCases(line: string)
    ensures ParseLine(line).Blank? <==> forall i :: 0 <= i < |line| ==> IsSpace(line[i])
    ensures ParseLine(line).Rejected? ==> ParseLine(line).text == Strip(line) != []
    ensures ParseLine(line) == Rejected(Strip(line), InvalidFormat)
      <==> Strip(line) != [] && |Split(Strip(line), '/')| != 4
    ensures ParseLine(line).Parsed? ==>
      var b := ParseLine(line).book;
      '/' !in b.title && '/' !in b.author && '/' !in b.isbn
    ensures var parts := Split(Strip(line), '/');
      ParseLine(line).Parsed? <==> Strip(line) != [] && |parts| == 4 && ParseInt(parts[3]).Some?
    ensures var parts := Split(Strip(line), '/');
      ParseLine(line).Parsed? ==>
        ParseLine(line).book == Book(parts[0], parts[1], parts[2], ParseInt(parts[3]).value)
    ensures ParseLine(line).Rejected? && ParseLine(line).reason != InvalidFormat ==>
      ParseLine(line).reason == YearNotInteger(Split(Strip(line), '/')[3])
  {
    StripEmptyIffBlank(line);
    ParseLineRejected(line);
    if ParseLine(line).Parsed? {
      ParsedWithoutSeparator(line);
    }
  }

  /** A rejected line carries its stripped, non-empty text, and it is
      rejected for its field count exactly when it does not have four fields. */
  lemma ParseLineRejected(line: string)
    ensures ParseLine(line).Rejected? ==> ParseLine(line).text == Strip(line) != []
    ensures ParseLine(line) == Rejected(Strip(line), InvalidFormat)
      <==> Strip(line) != [] && |Split(Strip(line), '/')| != 4
  {
  }

  /** A parsed book never has the separator in its first three fields. */
  lemma ParsedWithoutSeparator(line: string)
    requires ParseLine(line).Parsed?
    ensures var b := ParseLine(line).book;
      '/' !in b.title && '/' !in b.author && '/' !in b.isbn
  {
    SplitParts(Strip(line), '/');
  }

  /** A line break in a field would split the record across two lines of the file. */
  predicate NoLineBreak(s: string)
  {
    '\n' !in s && '\r' !in s
  }

  /** The books that survive a save and a reload unchanged: no field holds
      the separator or a line break, and the title does not start with
      whitespace (which `strip()` would remove). */
  predicate Storable(b: Book)
  {
    && '/' !in b.title && '/' !in b.author && '/' !in b.isbn
    && NoLineBreak(b.title) && NoLineBreak(b.author) && NoLineBreak(b.isbn)
    && (b.title != [] ==> !IsSpace(b.title[0]))
  }

  /** A book parsed from a line without a line break is storable: it comes
      back unchanged from its own line. */
  lemma ParsedBookStorable(line: string)
    requires NoLineBreak(line) && ParseLine(line).Parsed?
    ensures Storable(ParseLine(line).book)
  {
    var text := Strip(line);
    var parts := Split(text, '/');
    var b := ParseLine(line).book;
    ParsedWithoutSeparator(line);
    ParsedFields(line, b);
    StripChars(line);
    SplitChars(text, '/');
    assert forall c :: c in parts[0] || c in parts[1] || c in parts[2] ==> c in line;
    SplitFirstPrefix(text, '/');
    if b.title != [] {
      assert b.title[0] == text[0];
    }
  }

  /** The file line of a book splits back into its four fields. */
  lemma {:induction false} SplitFileFormat(b: Book)
    requires '/' !in b.title && '/' !in b.author && '/' !in b.isbn
    ensures Split(ToFileFormat(b), '/') == [b.title, b.author, b.isbn, IntToString(b.year)]
  {
    var y := IntToString(b.year);
    assert '/' !in y;
    SplitFour(b.title, b.author, b.isbn, y, '/');
    assert ToFileFormat(b) == b.title + ['/'] + (b.author + ['/'] + (b.isbn + ['/'] + y));
  }

  /** Serialise, then parse: a storable book comes back unchanged. */
  lemma SerializeThenParse(b: Book)
    requires Storable(b)
    ensures ParseLine(ToFileFormat(b)) == Parsed(b)
  {
    StripFileFormat(b);
    SplitFileFormat(b);
    IntToStringRoundTrip(b.year);
  }

  /** The line of a book whose title does not start with whitespace has no
      whitespace for `strip()` to remove. */
  lemma StripFileFormat(b: Book)
    requires b.title != [] ==> !IsSpace(b.title[0])
    ensures Strip(ToFileFormat(b)) == ToFileFormat(b)
  {
    var line := ToFileFormat(b);
    var y := IntToString(b.year);
    assert line[0] == if b.title != [] then b.title[0] else '/';
    assert line[|line| - 1] == y[|y| - 1];
    StripUnchanged(line);
  }

  /** Parse, then serialise: a parsed line whose year field is written in
      canonical form (no `+` sign, no leading zeros, no spaces) is rebuilt
      exactly, up to the whitespace `strip()` removed. */
  lemma {:induction false} ParseThenSerialize(line: string, b: Book)
    requires ParseLine(line) == Parsed(b)
    requires var parts := Split(Strip(line), '/'); |parts| == 4 && parts[3] == IntToString(b.year)
    ensures ToFileFormat(b) == Strip(line)
  {
    ParsedFields(line, b);
    JoinedFields(Strip(line), b);
  }

  /** The first three fields of a parsed book are the first three parts of its line. */
  lemma ParsedFields(line: string, b: Book)
    requires ParseLine(line) == Parsed(b)
    ensures var parts := Split(Strip(line), '/');
      |parts| == 4 && b.title == parts[0] && b.author == parts[1] && b.isbn == parts[2]
  {
  }

  /** A text that splits into the four fields of a book is that book's line. */
  lemma JoinedFields(text: string, b: Book)
    requires var parts := Split(text, '/');
      |parts| == 4 && parts[0] == b.title && parts[1] == b.author && parts[2] == b.isbn
      && parts[3] == IntToString(b.year)
    ensures ToFileFormat(b) == text
  {
    SplitParts(text, '/');
    JoinFour(Split(text, '/'), '/');
  }

  /** The format has no escaping: a book with `/` in a field does not come
      back from its own line. */
  lemma SlashInFieldIsNotRecovered(b: Book)
    requires '/' in b.title || '/' in b.author || '/' in b.isbn
    ensures ParseLine(ToFileFormat(b)) != Parsed(b)
  {
    if ParseLine(ToFileFormat(b)).Parsed? {
      ParsedWithoutSeparator(ToFileFormat(b));
    }
  }
}
