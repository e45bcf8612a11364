/** The ISBN shape check applied by `add` when validation is switched on.
    It looks at the digit pattern of ISBN-10 and ISBN-13 and at the 978/979
    prefix of ISBN-13; it does not verify the check digit of ISO 2108. */
module Isbn {
  import opened Text

  datatype Kind = Isbn10 | Isbn13

  /** `isbn.replace("-", "").replace(" ", "")`. */
  function Clean(isbn: string): (c: string)
    ensures '-' !in c && ' ' !in c
    ensures forall x :: x != '-' && x != ' ' ==> multiset(c)[x] == multiset(isbn)[x]
  {
    var r := Remove(Remove(isbn, '-'), ' ');
    assert multiset(r)['-'] == 0;
    r
  }

  /** Python's `str.isdigit()` restricted to ASCII digits: false on the empty string. */
  predicate IsDigits(s: string)
  {
    s != [] && forall i :: 0 <= i < |s| ==> IsDigit(s[i])
  }

  /** `c.upper() == "X"`: only `x` and `X` upper-case to `X`. */
  predicate UpperIsX(c: char)
  {
    c == 'X' || c == 'x'
  }

  predicate StartsWith(s: string, prefix: string)
  {
    |prefix| <= |s| && s[..|prefix|] == prefix
  }

  /** `_validate_isbn_format`: the kind of ISBN whose shape the cleaned string has. */
  function ValidateIsbnFormat(isbn: string): (r: (bool, Option<Kind>))
    ensures r.0 <==> r.1.Some?
    ensures r == (true, Some(Isbn10)) <==> Isbn10Shape(Clean(isbn))
    ensures r == (true, Some(Isbn13)) <==> Isbn13Shape(Clean(isbn))
    ensures r == (false, None) <==> !Isbn10Shape(Clean(isbn)) && !Isbn13Shape(Clean(isbn))
  {
    Classify(Clean(isbn))
  }

  /** The body of `_validate_isbn_format` after the cleaning step. */
  function Classify(c: string): (bool, Option<Kind>)
  {
    if |c| == 10 && IsDigits(c[..9]) && (IsDigit(c[9]) || UpperIsX(c[9])) then
      (true, Some(Isbn10))
    else if |c| == 13 && IsDigits(c) && (StartsWith(c, "978") || StartsWith(c, "979")) then
      (true, Some(Isbn13))
    else
      (false, None)
  }

  /** Reference shape of an ISBN-10: nine digits and then a digit or an X. */
  ghost predicate Isbn10Shape(c: string)
  {
    && |c| == 10
    && (forall i :: 0 <= i < 9 ==> '0' <= c[i] <= '9')
    && ('0' <= c[9] <= '9' || c[9] == 'X' || c[9] == 'x')
  }

  /** Reference shape of an ISBN-13: thirteen digits starting 978 or 979. */
  ghost predicate Isbn13Shape(c: string)
  {
    && |c| == 13
    && (forall i :: 0 <= i < 13 ==> '0' <= c[i] <= '9')
    && c[0] == '9' && c[1] == '7' && (c[2] == '8' || c[2] == '9')
  }

  lemma {:induction false} CleanConcat(a: string, b: string)
    ensures Clean(a + b) == Clean(a) + Clean(b)
  {
    RemoveConcat(a, b, '-');
    RemoveConcat(Remove(a, '-'), Remove(b, '-'), ' ');
  }

  /** Inserting a hyphen or a space anywhere never changes the verdict. */
  lemma SeparatorInsensitive(a: string, b: string, sep: char)
    requires sep == '-' || sep == ' '
    ensures ValidateIsbnFormat(a + [sep] + b) == ValidateIsbnFormat(a + b)
  {
    CleanConcat(a + [sep], b);
    CleanConcat(a, [sep]);
    CleanConcat(a, b);
    assert Clean([sep]) == [];
    assert Clean(a + [sep] + b) == Clean(a + b);
  }

  lemma {:induction false} RemoveAbsent(s: string, c: char)
    requires c !in s
    ensures Remove(s, c) == s
  {
    if s != [] {
      RemoveAbsent(s[1..], c);
      assert [s[0]] + s[1..] == s;
    }
  }

  /** Validating an already cleaned ISBN gives the same verdict. */
  lemma CleanIdempotent(isbn: string)
    ensures Clean(Clean(isbn)) == Clean(isbn)
    ensures ValidateIsbnFormat(Clean(isbn)) == ValidateIsbnFormat(isbn)
  {
    var c := Clean(isbn);
    RemoveAbsent(c, '-');
    RemoveAbsent(c, ' ');
  }

  /** An ISBN written without hyphens or spaces is classified as it stands. */
  lemma ValidateWithoutSeparators(isbn: string)
    requires '-' !in isbn && ' ' !in isbn
    ensures ValidateIsbnFormat(isbn) == Classify(isbn)
  {
    RemoveAbsent(isbn, '-');
    RemoveAbsent(isbn, ' ');
  }
}

/** Three examples of the ISBN check, in their cleaned spelling:
    `SeparatorInsensitive` says that the hyphens of "978-3-16-148410-0" and
    "0-306-40615-2" make no difference. Each string comes in as a parameter
    fixed by the precondition: written as a literal in the conclusion, the
    verifier would unfold the cleaning of the literal without bound. */
module IsbnExamples {
  import opened Text
  import opened Isbn

  lemma Isbn13Example(isbn: string)
    requires isbn == "9783161484100"
    ensures ValidateIsbnFormat(isbn) == (true, Some(Isbn13))
  {
    ValidateWithoutSeparators(isbn);
  }

  lemma Isbn10Example(isbn: string)
    requires isbn == "0306406152"
    ensures ValidateIsbnFormat(isbn) == (true, Some(Isbn10))
  {
    ValidateWithoutSeparators(isbn);
  }

  lemma TooShortExample(isbn: string)
    requires isbn == "12345"
    ensures ValidateIsbnFormat(isbn) == (false, None)
  {
    ValidateWithoutSeparators(isbn);
  }
}
