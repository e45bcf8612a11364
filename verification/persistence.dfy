/** What `_load_from_file` and `_save_to_file` compute, as functions of the
    file's lines: the books and the warnings a load produces, the year order
    a save writes (Python's stable `sorted(..., key=year)`), and the
    round trips between the two. The file is its sequence of lines, each
    without its trailing newline. */
module Persistence {
  import opened Text
  import opened Records

  /** What each line of the file turns into, line by line. */
  function ParseLines(lines: seq<string>): (rs: seq<LineResult>)
    ensures |rs| == |lines|
  {
    if lines == [] then []
    else ParseLines(lines[..|lines| - 1]) + [ParseLine(lines[|lines| - 1])]
  }

  /** The books among the parsed lines, in order. */
  function BooksOf(rs: seq<LineResult>): seq<Book>
  {
    if rs == [] then []
    else BooksOf(rs[..|rs| - 1]) + if rs[|rs| - 1].Parsed? then [rs[|rs| - 1].book] else []
  }

  /** One warning per rejected line, numbered from 1, in order. */
  function WarningsOf(rs: seq<LineResult>): (ws: seq<Warning>)
    ensures |ws| <= |rs|
    ensures forall k :: 0 <= k < |ws| ==>
      1 <= ws[k].lineNum <= |rs| && rs[ws[k].lineNum - 1] == Rejected(ws[k].text, ws[k].reason)
    ensures forall j, k :: 0 <= j < k < |ws| ==> ws[j].lineNum < ws[k].lineNum
  {
    if rs == [] then []
    else
      var earlier := WarningsOf(rs[..|rs| - 1]);
      match rs[|rs| - 1]
      case Rejected(text, reason) => earlier + [Warning(|rs|, text, reason)]
      case _ => earlier
  }

  /** The books a load collects from `lines`, in file order. */
  function LoadBooks(lines: seq<string>): seq<Book>
  {
    BooksOf(ParseLines(lines))
  }

  /** The warnings a load collects from `lines`: one per rejected line, in
      file order. */
  function LoadWarnings(lines: seq<string>): seq<Warning>
  {
    WarningsOf(ParseLines(lines))
  }

  /** Each warning names a line of the file by its 1-based number, carries
      that line's stripped text and the reason it was rejected, and the
      warnings come in increasing line order. */
  lemma LoadWarningsDescribeLines(lines: seq<string>)
    ensures forall k :: 0 <= k < |LoadWarnings(lines)| ==>
      var w := LoadWarnings(lines)[k];
      1 <= w.lineNum <= |lines| && w.text == Strip(lines[w.lineNum - 1]) != []
      && ParseLine(lines[w.lineNum - 1]) == Rejected(w.text, w.reason)
    ensures forall j, k :: 0 <= j < k < |LoadWarnings(lines)| ==>
      LoadWarnings(lines)[j].lineNum < LoadWarnings(lines)[k].lineNum
  {
    var ws := LoadWarnings(lines);
    forall k | 0 <= k < |ws|
      ensures 1 <= ws[k].lineNum <= |lines| && ws[k].text == Strip(lines[ws[k].lineNum - 1]) != []
      && ParseLine(lines[ws[k].lineNum - 1]) == Rejected(ws[k].text, ws[k].reason)
    {
      RejectedLine(lines, ws[k].lineNum - 1, ws[k].text, ws[k].reason);
    }
  }

  lemma RejectedLine(lines: seq<string>, n: nat, text: string, reason: Reason)
    requires n < |lines| && ParseLines(lines)[n] == Rejected(text, reason)
    ensures text == Strip(lines[n]) != [] && ParseLine(lines[n]) == Rejected(text, reason)
  {
    ParseLinesIndex(lines, n);
    ParseLineRejected(lines[n]);
  }

  /** Line `k` of the file parses on its own. */
  lemma {:induction false} ParseLinesIndex(lines: seq<string>, k: nat)
    requires k < |lines|
    ensures ParseLines(lines)[k] == ParseLine(lines[k])
  {
    if k < |lines| - 1 {
      ParseLinesIndex(lines[..|lines| - 1], k);
    }
  }

  lemma ParseLinesSnoc(lines: seq<string>, line: string)
    ensures ParseLines(lines + [line]) == ParseLines(lines) + [ParseLine(line)]
  {
    assert (lines + [line])[..|lines|] == lines;
  }

  lemma BooksOfSnoc(rs: seq<LineResult>, r: LineResult)
    ensures BooksOf(rs + [r]) == BooksOf(rs) + if r.Parsed? then [r.book] else []
  {
    assert (rs + [r])[..|rs|] == rs;
  }

  lemma WarningsOfSnoc(rs: seq<LineResult>, r: LineResult)
    ensures WarningsOf(rs + [r]) == WarningsOf(rs) + if r.Rejected? then [Warning(|rs| + 1, r.text, r.reason)] else []
  {
    assert (rs + [r])[..|rs|] == rs;
  }

  /** The number of lines that are not blank. */
  function NonBlankCount(lines: seq<string>): nat
  {
    if lines == [] then 0
    else NonBlankCount(lines[..|lines| - 1]) + if Strip(lines[|lines| - 1]) == [] then 0 else 1
  }

  /** Every non-blank line becomes exactly one book or exactly one warning,
      and blank lines become neither. */
  lemma {:induction false} LoadAccountsForEveryLine(lines: seq<string>)
    ensures |LoadBooks(lines)| + |LoadWarnings(lines)| == NonBlankCount(lines)
  {
    if lines != [] {
      var init, last := lines[..|lines| - 1], lines[|lines| - 1];
      LoadAccountsForEveryLine(init);
      BooksOfSnoc(ParseLines(init), ParseLine(last));
      WarningsOfSnoc(ParseLines(init), ParseLine(last));
    }
  }

  /** The lines a save writes for `books`, in the order given. */
  function Serialize(books: seq<Book>): (lines: seq<string>)
    ensures |lines| == |books|
  {
    if books == [] then []
    else Serialize(books[..|books| - 1]) + [ToFileFormat(books[|books| - 1])]
  }

  /** Non-decreasing year order. */
  predicate SortedByYear(s: seq<Book>)
  {
    forall i, j :: 0 <= i < j < |s| ==> s[i].year <= s[j].year
  }

  /** Inserts `b` before the first book of the same or a later year; what it
      promises is `InsertByYearSorted`. */
  function InsertByYear(b: Book, s: seq<Book>): seq<Book>
  {
    if s == [] || b.year <= s[0].year then [b] + s
    else [s[0]] + InsertByYear(b, s[1..])
  }

  /** Inserting into a year-sorted list keeps it sorted and adds exactly `b`. */
  lemma {:induction false} InsertByYearSorted(b: Book, s: seq<Book>)
    requires SortedByYear(s)
    ensures SortedByYear(InsertByYear(b, s))
    ensures multiset(InsertByYear(b, s)) == multiset(s) + multiset{b}
    ensures |InsertByYear(b, s)| == |s| + 1
  {
    InsertByYearHead(b, s);
    InsertByYearPerm(b, s);
    if s == [] || b.year <= s[0].year {
      PrependSorted(b, s);
    } else {
      var t := s[1..];
      assert SortedByYear(t);
      InsertByYearSorted(b, t);
      InsertByYearHead(b, t);
      PrependSorted(s[0], InsertByYear(b, t));
    }
  }

  /** Inserting adds exactly `b`, whatever the order of `s`. */
  lemma {:induction false} InsertByYearPerm(b: Book, s: seq<Book>)
    ensures multiset(InsertByYear(b, s)) == multiset(s) + multiset{b}
    ensures |InsertByYear(b, s)| == |s| + 1
  {
    if s != [] && b.year > s[0].year {
      InsertByYearPerm(b, s[1..]);
      assert s == [s[0]] + s[1..];
    }
  }

  /** The first book after an insertion is `b` or the old first book. */
  lemma InsertByYearHead(b: Book, s: seq<Book>)
    ensures InsertByYear(b, s) != []
    ensures InsertByYear(b, s)[0] == if s == [] || b.year <= s[0].year then b else s[0]
  {
  }

  /** Putting a book no later than the first one in front keeps the order. */
  lemma PrependSorted(b: Book, s: seq<Book>)
    requires SortedByYear(s) && (s == [] || b.year <= s[0].year)
    ensures SortedByYear([b] + s)
  {
    var q := [b] + s;
    forall i, j | 0 <= i < j < |q|
      ensures q[i].year <= q[j].year
    {
      if i > 0 {
        assert q[i] == s[i - 1] && q[j] == s[j - 1];
      } else {
        assert q[j] == s[j - 1];
      }
    }
  }

  /** Python's `sorted(books, key=lambda b: b.year)`: a permutation of
      `books` in non-decreasing year order (stability is `SortIsStable`). */
  function SortByYear(books: seq<Book>): (r: seq<Book>)
    ensures SortedByYear(r)
    ensures multiset(r) == multiset(books)
    ensures |r| == |books|
  {
    if books == [] then []
    else
      assert books == [books[0]] + books[1..];
      InsertByYearSorted(books[0], SortByYear(books[1..]));
      InsertByYear(books[0], SortByYear(books[1..]))
  }

  /** The books of year `y`, in their order in `s`. */
  function OfYear(s: seq<Book>, y: int): seq<Book>
  {
    if s == [] then []
    else (if s[0].year == y then [s[0]] else []) + OfYear(s[1..], y)
  }

  lemma {:induction false} OfYearConcat(a: seq<Book>, b: seq<Book>, y: int)
    ensures OfYear(a + b, y) == OfYear(a, y) + OfYear(b, y)
  {
    if a == [] {
      assert a + b == b;
    } else {
      var h := if a[0].year == y then [a[0]] else [];
      assert (a + b)[0] == a[0] && (a + b)[1..] == a[1..] + b;
      assert OfYear(a + b, y) == h + OfYear(a[1..] + b, y);
      OfYearConcat(a[1..], b, y);
      assert h + (OfYear(a[1..], y) + OfYear(b, y)) == (h + OfYear(a[1..], y)) + OfYear(b, y);
    }
  }

  lemma OfYearSingle(x: Book, y: int)
    ensures OfYear([x], y) == if x.year == y then [x] else []
  {
    assert [x][1..] == [];
  }

  lemma {:induction false} InsertIsStable(b: Book, s: seq<Book>, y: int)
    ensures OfYear(InsertByYear(b, s), y) == OfYear([b] + s, y)
  {
    if s != [] && b.year > s[0].year {
      var head, tail := s[0], s[1..];
      var rest := InsertByYear(b, tail);
      assert InsertByYear(b, s) == [head] + rest;
      assert s == [head] + tail;
      InsertIsStable(b, tail, y);
      OfYearConcat([head], rest, y);
      OfYearConcat([b], tail, y);
      OfYearConcat([b], s, y);
      OfYearConcat([head], tail, y);
      OfYearSingle(head, y);
      OfYearSingle(b, y);
      SwapDisjointYears(OfYear([head], y), OfYear([b], y), OfYear(tail, y));
    }
  }

  lemma SwapDisjointYears(a: seq<Book>, b: seq<Book>, t: seq<Book>)
    requires a == [] || b == []
    ensures a + (b + t) == b + (a + t)
  {
    if a == [] {
      assert a + (b + t) == b + t && a + t == t;
    } else {
      assert b + t == t && b + (a + t) == a + t;
    }
  }

  /** The sort is stable: the books of any one year keep their relative order. */
  lemma {:induction false} SortIsStable(books: seq<Book>, y: int)
    ensures OfYear(SortByYear(books), y) == OfYear(books, y)
  {
    if books != [] {
      SortIsStable(books[1..], y);
      InsertIsStable(books[0], SortByYear(books[1..]), y);
      OfYearConcat([books[0]], SortByYear(books[1..]), y);
      OfYearConcat([books[0]], books[1..], y);
      assert books == [books[0]] + books[1..];
    }
  }

  /** Sorting books that are already in year order changes nothing. */
  lemma {:induction false} SortSortedIsIdentity(books: seq<Book>)
    requires SortedByYear(books)
    ensures SortByYear(books) == books
  {
    if books != [] {
      SortSortedIsIdentity(books[1..]);
      assert books == [books[0]] + books[1..];
    }
  }

  /** Writing one more book, stated on the prefixes of the books. */
  lemma SerializePrefixStep(books: seq<Book>, i: nat)
    requires i < |books|
    ensures Serialize(books[..i + 1]) == Serialize(books[..i]) + [ToFileFormat(books[i])]
  {
    assert books[..i + 1][..i] == books[..i];
  }

  /** The lines `_save_to_file` writes: the books sorted by year, one line each. */
  function SaveLines(books: seq<Book>): seq<string>
  {
    Serialize(SortByYear(books))
  }

  /** Reading one more line: a parsed line adds its book at the end, a
      rejected line adds a warning numbered after the lines before it, and a
      blank line adds nothing. */
  lemma LoadSnoc(lines: seq<string>, line: string)
    ensures LoadBooks(lines + [line]) ==
      LoadBooks(lines) + if ParseLine(line).Parsed? then [ParseLine(line).book] else []
    ensures LoadWarnings(lines + [line]) ==
      LoadWarnings(lines) + if ParseLine(line).Rejected?
        then [Warning(|lines| + 1, ParseLine(line).text, ParseLine(line).reason)] else []
  {
    ParseLinesSnoc(lines, line);
    BooksOfSnoc(ParseLines(lines), ParseLine(line));
    WarningsOfSnoc(ParseLines(lines), ParseLine(line));
  }

  /** Loading one more line of a file, stated on the file's prefixes. */
  lemma LoadPrefixStep(lines: seq<string>, i: nat, r: LineResult)
    requires i < |lines| && r == ParseLine(lines[i])
    ensures LoadBooks(lines[..i + 1]) == LoadBooks(lines[..i]) + if r.Parsed? then [r.book] else []
    ensures LoadWarnings(lines[..i + 1]) ==
      LoadWarnings(lines[..i]) + if r.Rejected? then [Warning(i + 1, r.text, r.reason)] else []
  {
    LoadSnoc(lines[..i], lines[i]);
    assert lines[..i + 1] == lines[..i] + [lines[i]];
  }

  /** Appending the line of a storable book to a file adds that book at the
      end of what a load collects, and no warning. */
  lemma LoadAppendStorable(lines: seq<string>, b: Book)
    requires Storable(b)
    ensures LoadBooks(lines + [ToFileFormat(b)]) == LoadBooks(lines) + [b]
    ensures LoadWarnings(lines + [ToFileFormat(b)]) == LoadWarnings(lines)
  {
    SerializeThenParse(b);
    ParseLinesSnoc(lines, ToFileFormat(b));
    BooksOfSnoc(ParseLines(lines), Parsed(b));
    WarningsOfSnoc(ParseLines(lines), Parsed(b));
  }

  /** Every book of the list is storable, stated by recursion from the end
      so that a proof by induction sees one book at a time. */
  predicate AllStorable(books: seq<Book>)
  {
    books != [] ==> AllStorable(books[..|books| - 1]) && Storable(books[|books| - 1])
  }

  lemma {:induction false} AllStorableFromEach(books: seq<Book>)
    requires forall b :: b in books ==> Storable(b)
    ensures AllStorable(books)
  {
    if books != [] {
      var init := books[..|books| - 1];
      assert forall b :: b in init ==> b in books;
      AllStorableFromEach(init);
    }
  }

  lemma {:induction false} LoadSerializedAll(books: seq<Book>)
    requires AllStorable(books)
    ensures LoadBooks(Serialize(books)) == books
    ensures LoadWarnings(Serialize(books)) == []
  {
    if books != [] {
      var init, last := books[..|books| - 1], books[|books| - 1];
      LoadSerializedAll(init);
      LoadAppendStorable(Serialize(init), last);
      SnocSplit(books);
    }
  }

  lemma SnocSplit(books: seq<Book>)
    requires books != []
    ensures books[..|books| - 1] + [books[|books| - 1]] == books
  {
  }

  /** Loading the lines of storable books gives back those books, in the
      same order, and no warnings. */
  lemma LoadSerialized(books: seq<Book>)
    requires forall b :: b in books ==> Storable(b)
    ensures LoadBooks(Serialize(books)) == books
    ensures LoadWarnings(Serialize(books)) == []
  {
    AllStorableFromEach(books);
    LoadSerializedAll(books);
  }

  /** The persistence round trip: reloading what a save wrote gives the
      books sorted by year, and no warnings, provided every book is storable. */
  lemma ReloadSaved(books: seq<Book>)
    requires forall b :: b in books ==> Storable(b)
    ensures LoadBooks(SaveLines(books)) == SortByYear(books)
    ensures LoadWarnings(SaveLines(books)) == []
  {
    var sorted := SortByYear(books);
    assert forall b :: b in sorted ==> b in multiset(books);
    LoadSerialized(sorted);
  }

  /** Reopening a saved library rewrites the file with exactly the lines it
      already has: the load-time rewrite is idempotent. */
  lemma ReopenRewritesSameFile(books: seq<Book>)
    requires forall b :: b in books ==> Storable(b)
    ensures SaveLines(LoadBooks(SaveLines(books))) == SaveLines(books)
  {
    ReloadSaved(books);
    SortSortedIsIdentity(SortByYear(books));
  }

  /** Every book a load collects from lines without line breaks is storable. */
  lemma {:induction false} LoadedBooksStorable(lines: seq<string>)
    requires forall i :: 0 <= i < |lines| ==> NoLineBreak(lines[i])
    ensures forall b :: b in LoadBooks(lines) ==> Storable(b)
  {
    if lines != [] {
      var init, last := lines[..|lines| - 1], lines[|lines| - 1];
      LoadedBooksStorable(init);
      LoadSnoc(init, last);
      assert init + [last] == lines;
      if ParseLine(last).Parsed? {
        ParsedBookStorable(last);
      }
    }
  }

  /** The load-time rewrite normalises the file once and for all: the file
      it writes holds one line per book loaded, reloading it gives those
      books sorted by year and no warnings (every rejected line is gone),
      and reopening it again rewrites it with the same lines. */
  lemma RewriteAfterLoadIsFinal(lines: seq<string>)
    requires forall i :: 0 <= i < |lines| ==> NoLineBreak(lines[i])
    ensures var rewritten := SaveLines(LoadBooks(lines));
      && |rewritten| == |LoadBooks(lines)|
      && LoadBooks(rewritten) == SortByYear(LoadBooks(lines))
      && LoadWarnings(rewritten) == []
      && SaveLines(LoadBooks(rewritten)) == rewritten
  {
    LoadedBooksStorable(lines);
    ReloadSaved(LoadBooks(lines));
    ReopenRewritesSameFile(LoadBooks(lines));
  }

  /** A load keeps the order of the file and does not sort the books in
      memory: two storable books written out of year order load out of
      year order. */
  lemma LoadKeepsFileOrder(b1: Book, b2: Book)
    requires Storable(b1) && Storable(b2) && b1.year > b2.year
    ensures LoadBooks(Serialize([b1, b2])) == [b1, b2]
    ensures !SortedByYear(LoadBooks(Serialize([b1, b2])))
  {
    LoadSerialized([b1, b2]);
    var loaded := LoadBooks(Serialize([b1, b2]));
    assert loaded[0].year > loaded[1].year;
  }

  /** A file of one good line and one line with three fields loads one book
      and one warning, for line 2, that the line has the wrong field count. */
  lemma OneGoodLineOneShortLine(b: Book, f0: string, f1: string, f2: string)
    requires Storable(b) && ThreeFieldLine(f0, f1, f2)
    ensures var short := f0 + "/" + f1 + "/" + f2;
      && LoadBooks([ToFileFormat(b), short]) == [b]
      && LoadWarnings([ToFileFormat(b), short]) == [Warning(2, short, InvalidFormat)]
  {
    var short := f0 + "/" + f1 + "/" + f2;
    var good := ToFileFormat(b);
    ShortLineRejected(f0, f1, f2);
    LoadAppendStorable([], b);
    assert [] + [good] == [good];
    LoadAppendRejected([good], short, short, InvalidFormat);
    assert [good] + [short] == [good, short];
  }

  /** Appending a rejected line to a file adds a warning for it, numbered
      after the lines before it, and no book. */
  lemma LoadAppendRejected(lines: seq<string>, line: string, text: string, reason: Reason)
    requires ParseLine(line) == Rejected(text, reason)
    ensures LoadBooks(lines + [line]) == LoadBooks(lines)
    ensures LoadWarnings(lines + [line]) == LoadWarnings(lines) + [Warning(|lines| + 1, text, reason)]
  {
    ParseLinesSnoc(lines, line);
    BooksOfSnoc(ParseLines(lines), Rejected(text, reason));
    WarningsOfSnoc(ParseLines(lines), Rejected(text, reason));
  }

  /** Three separator-free fields, with nothing for `strip()` to remove at
      either end of the line they make. */
  predicate ThreeFieldLine(f0: string, f1: string, f2: string)
  {
    && '/' !in f0 && '/' !in f1 && '/' !in f2
    && f0 != [] && !IsSpace(f0[0]) && f2 != [] && !IsSpace(f2[|f2| - 1])
  }

  /** A line of three fields is rejected for its field count. */
  lemma ShortLineRejected(f0: string, f1: string, f2: string)
    requires ThreeFieldLine(f0, f1, f2)
    ensures var short := f0 + "/" + f1 + "/" + f2;
      ParseLine(short) == Rejected(short, InvalidFormat)
  {
    var short := f0 + "/" + f1 + "/" + f2;
    ThreeFieldStrip(f0, f1, f2);
    ThreeFieldSplit(f0, f1, f2);
    FieldCountRejected(short);
  }

  lemma ThreeFieldStrip(f0: string, f1: string, f2: string)
    requires ThreeFieldLine(f0, f1, f2)
    ensures var short := f0 + "/" + f1 + "/" + f2; short != [] && Strip(short) == short
  {
    var short := f0 + "/" + f1 + "/" + f2;
    assert short[0] == f0[0] && short[|short| - 1] == f2[|f2| - 1];
    StripUnchanged(short);
  }

  lemma ThreeFieldSplit(f0: string, f1: string, f2: string)
    requires ThreeFieldLine(f0, f1, f2)
    ensures |Split(f0 + "/" + f1 + "/" + f2, '/')| == 3
  {
    SplitNoSeparator(f2, '/');
    SplitField(f1, '/', f2);
    SplitField(f0, '/', f1 + "/" + f2);
    assert f0 + "/" + f1 + "/" + f2 == f0 + ['/'] + (f1 + ['/'] + f2);
  }

  lemma FieldCountRejected(line: string)
    requires line != [] && Strip(line) == line && |Split(line, '/')| != 4
    ensures ParseLine(line) == Rejected(line, InvalidFormat)
  {
    ParseLineRejected(line);
  }
}
