/**
 * The library checkout model: books, the records of books lent to a
 * subscriber, a subscriber's card with its borrowing limit, the three
 * list-combining operators on cards, the filter queries and the debt.
 *
 * Dates are day numbers and "today" is a parameter of every operation that
 * asks the clock.
 */
module Library {
  import opened Wrappers
  import opened Sequences

  /** How many days a borrowed book may be kept. */
  const MaxDays: int := 30
  /** The default capacity of a card, and the capacity of an intersection. */
  const MaxSize: int := 100

  datatype Error =
    | NegativeYear
    | NegativePrice
    | LimitReached(size: int)
    | BookNotFound
    | IndexOutOfRange
    | DifferentSubscribers

  // ---------------------------------------------------------------------------
  // Books

  /** A book; two books are equal when all five fields are. */
  datatype Book = Book(author: string, title: string, year: int, publisher: string, price: real)
  {
    predicate Valid() { year >= 0 && price >= 0.0 }
  }

  /** Constructs a book, rejecting a negative year first and then a negative price. */
  function NewBook(author: string, title: string, year: int, publisher: string, price: real)
    : (r: Result<Book, Error>)
    ensures r.Success? <==> year >= 0 && price >= 0.0
    ensures r.Success? ==> r.value.Valid()
    ensures r.Success? ==>
      r.value.author == author && r.value.title == title && r.value.year == year &&
      r.value.publisher == publisher && r.value.price == price
    ensures year < 0 ==> r == Failure(NegativeYear)
    ensures year >= 0 && price < 0.0 ==> r == Failure(NegativePrice)
  {
    if year < 0 then Failure(NegativeYear)
    else if price < 0.0 then Failure(NegativePrice)
    else Success(Book(author, title, year, publisher, price))
  }

  /** Field-by-field comparison of two books; it coincides with value equality. */
  function SameBook(a: Book, b: Book): (r: bool)
    ensures r <==> a == b
  {
    a.author == b.author && a.title == b.title && a.year == b.year &&
    a.publisher == b.publisher && a.price == b.price
  }

  // ---------------------------------------------------------------------------
  // Lower-case folding for the author and publisher queries

  /** Lower-case form of a Latin or basic Cyrillic capital letter; other characters are kept. */
  function LowerChar(c: char): (d: char)
    ensures !('A' <= d <= 'Z' || '\U{0400}' <= d <= '\U{042F}')
    ensures !('A' <= c <= 'Z' || '\U{0400}' <= c <= '\U{042F}') ==> d == c
    ensures 'A' <= c <= 'Z' ==> 'a' <= d <= 'z' && d as int - 'a' as int == c as int - 'A' as int
    ensures '\U{0410}' <= c <= '\U{042F}' ==>
      '\U{0430}' <= d <= '\U{044F}' && d as int - 0x430 == c as int - 0x410
    ensures '\U{0400}' <= c <= '\U{040F}' ==>
      '\U{0450}' <= d <= '\U{045F}' && d as int - 0x450 == c as int - 0x400
  {
    if 'A' <= c <= 'Z' then (c as int + 32) as char
    else if '\U{0410}' <= c <= '\U{042F}' then (c as int + 32) as char
    else if '\U{0400}' <= c <= '\U{040F}' then (c as int + 80) as char
    else c
  }

  function Lower(s: string): (r: string)
    ensures |r| == |s|
    ensures forall i :: 0 <= i < |s| ==> r[i] == LowerChar(s[i])
  {
    seq(|s|, i requires 0 <= i < |s| => LowerChar(s[i]))
  }

  /**
   * Two characters fold to the same one exactly when they are equal or one
   * is the capital whose small letter is the other.
   */
  lemma LowerCharSameLetter(c: char, e: char)
    ensures LowerChar(c) == LowerChar(e) <==> c == e || LowerChar(c) == e || LowerChar(e) == c
  {
  }

  /** Two strings are equal ignoring case exactly when they agree letter by letter up to case. */
  lemma LowerEqual(s: string, t: string)
    ensures Lower(s) == Lower(t) <==>
      |s| == |t| && forall i :: 0 <= i < |s| ==> s[i] == t[i] || LowerChar(s[i]) == t[i] || LowerChar(t[i]) == s[i]
  {
    if |s| == |t| {
      forall i | 0 <= i < |s| {
        LowerCharSameLetter(s[i], t[i]);
      }
      if forall i :: 0 <= i < |s| ==> s[i] == t[i] || LowerChar(s[i]) == t[i] || LowerChar(t[i]) == s[i] {
        assert forall i :: 0 <= i < |s| ==> Lower(s)[i] == Lower(t)[i];
      }
    }
  }

  lemma LowerIdempotent(s: string)
    ensures Lower(Lower(s)) == Lower(s)
  {
    assert forall i :: 0 <= i < |s| ==> Lower(Lower(s))[i] == Lower(s)[i];
  }

  // ---------------------------------------------------------------------------
  // Borrowed books

  /** The deadline of a book issued on day `issueDate`. */
  function CalculateReturnDate(issueDate: int): (r: int)
    ensures r > issueDate && r - issueDate == MaxDays
  {
    issueDate + MaxDays
  }

  /**
   * A book lent to a subscriber. Records have no equality of their own:
   * two records are the same only when they are the same object.
   */
  class BorrowedBook {
    const book: Book
    const issueDate: int
    const returnDate: int := CalculateReturnDate(issueDate)
    var returned: bool

    constructor (book: Book, issueDate: int)
      ensures this.book == book && this.issueDate == issueDate && !returned
      ensures returnDate == issueDate + MaxDays
    {
      this.book := book;
      this.issueDate := issueDate;
      returned := false;
    }

    method MarkReturned()
      modifies this
      ensures returned
    {
      returned := true;
    }

    /** A returned book is never overdue; an unreturned one is once more than MaxDays days have passed. */
    predicate IsOverdue(today: int)
      reads this
      ensures returned ==> !IsOverdue(today)
      ensures !returned ==> (IsOverdue(today) <==> today - issueDate > MaxDays)
    {
      if returned then false else today > returnDate
    }
  }

  // ---------------------------------------------------------------------------
  // Specification functions on lists of records

  /** Some record in `bs` lends a book equal to `book`. */
  function HasBook(bs: seq<BorrowedBook>, book: Book): (r: bool)
    ensures r <==> exists i :: 0 <= i < |bs| && bs[i].book == book
  {
    if bs == [] then false
    else if bs[0].book == book then true
    else
      var r := HasBook(bs[1..], book);
      assert r ==> exists i :: 0 <= i < |bs[1..]| && bs[1..][i].book == book;
      assert r ==> exists i :: 1 <= i < |bs| && bs[i].book == book;
      r
  }

  /** The position of the first record lending `book`, or -1 if there is none. */
  function IndexOf(bs: seq<BorrowedBook>, book: Book): (r: int)
    ensures -1 <= r < |bs|
    ensures r >= 0 ==> bs[r].book == book && forall j :: 0 <= j < r ==> bs[j].book != book
    ensures r == -1 <==> !HasBook(bs, book)
  {
    if bs == [] then -1
    else if bs[0].book == book then 0
    else
      var k := IndexOf(bs[1..], book);
      assert forall j :: 0 <= j < |bs[1..]| ==> bs[1..][j] == bs[j + 1];
      if k < 0 then -1 else k + 1
  }

  /** The criteria of the filter queries and of the intersection and difference operators. */
  datatype Query =
    | Year(year: int)
    | Author(author: string)
    | Publisher(publisher: string)
    | SharedWith(others: seq<BorrowedBook>)
    | AbsentFrom(others: seq<BorrowedBook>)

  /** Whether the book lent by `b` meets `q`; it depends only on the book, never on the return status. */
  predicate Matches(b: BorrowedBook, q: Query)
    ensures q.SharedWith? ==> (Matches(b, q) <==> exists i :: 0 <= i < |q.others| && q.others[i].book == b.book)
    ensures q.AbsentFrom? ==> (Matches(b, q) <==> forall i :: 0 <= i < |q.others| ==> q.others[i].book != b.book)
  {
    match q
    case Year(y) => b.book.year == y
    case Author(a) => Lower(b.book.author) == Lower(a)
    case Publisher(p) => Lower(b.book.publisher) == Lower(p)
    case SharedWith(os) => HasBook(os, b.book)
    case AbsentFrom(os) => !HasBook(os, b.book)
  }

  /** The records of `xs` that match `q`, in their order in `xs`. */
  function Select(xs: seq<BorrowedBook>, q: Query): (r: seq<BorrowedBook>)
    ensures |r| <= |xs|
  {
    if xs == [] then []
    else
      var rest := Select(xs[1..], q);
      if Matches(xs[0], q) then [xs[0]] + rest else rest
  }

  /** Filtering keeps every matching record as often as it occurs in `xs` and drops every other one. */
  lemma {:induction false} SelectCount(xs: seq<BorrowedBook>, q: Query)
    ensures forall x :: multiset(Select(xs, q))[x] == if Matches(x, q) then multiset(xs)[x] else 0
  {
    if xs != [] {
      SelectCount(xs[1..], q);
      SelectConsMultiset(xs, q);
      assert multiset(xs) == multiset{xs[0]} + multiset(xs[1..]) by {
        assert xs == [xs[0]] + xs[1..];
      }
    }
  }

  /** Every selected record is a record of `xs` that matches, and every record of `xs` that matches is selected. */
  lemma {:induction false} SelectMembers(xs: seq<BorrowedBook>, q: Query)
    ensures forall x :: x in Select(xs, q) <==> x in xs && Matches(x, q)
    ensures forall i :: 0 <= i < |Select(xs, q)| ==> Select(xs, q)[i] in xs && Matches(Select(xs, q)[i], q)
    ensures forall i :: 0 <= i < |xs| ==> (xs[i] in Select(xs, q) <==> Matches(xs[i], q))
  {
    if xs != [] {
      SelectMembers(xs[1..], q);
      assert xs == [xs[0]] + xs[1..];
    }
    var r := Select(xs, q);
    assert forall i :: 0 <= i < |r| ==> r[i] in r;
  }

  /** Filtering keeps the order: the selected records are a subsequence of `xs`. */
  lemma {:induction false} SelectSubsequence(xs: seq<BorrowedBook>, q: Query)
    ensures IsSubsequence(Select(xs, q), xs)
  {
    if xs != [] {
      var rest := Select(xs[1..], q);
      SelectSubsequence(xs[1..], q);
      if Matches(xs[0], q) {
        assert ([xs[0]] + rest)[1..] == rest;
      }
    }
  }

  /** Filtering one more record at the end, as the operator loops do. */
  lemma {:induction false} SelectSnoc(xs: seq<BorrowedBook>, x: BorrowedBook, q: Query)
    ensures Select(xs + [x], q) == Select(xs, q) + (if Matches(x, q) then [x] else [])
  {
    if xs != [] {
      assert (xs + [x])[1..] == xs[1..] + [x];
      SelectSnoc(xs[1..], x, q);
    }
  }

  /** Two criteria that agree on every record of `xs` select the same records. */
  lemma {:induction false} SelectAgree(xs: seq<BorrowedBook>, q1: Query, q2: Query)
    requires forall i :: 0 <= i < |xs| ==> (Matches(xs[i], q1) <==> Matches(xs[i], q2))
    ensures Select(xs, q1) == Select(xs, q2)
  {
    if xs != [] {
      SelectAgree(xs[1..], q1, q2);
    }
  }

  /** The author query is case-insensitive in its argument. */
  lemma AuthorIgnoresCase(xs: seq<BorrowedBook>, author: string)
    ensures Select(xs, Author(author)) == Select(xs, Author(Lower(author)))
  {
    LowerIdempotent(author);
    SelectAgree(xs, Author(author), Author(Lower(author)));
  }

  /** The publisher query is case-insensitive in its argument. */
  lemma PublisherIgnoresCase(xs: seq<BorrowedBook>, publisher: string)
    ensures Select(xs, Publisher(publisher)) == Select(xs, Publisher(Lower(publisher)))
  {
    LowerIdempotent(publisher);
    SelectAgree(xs, Publisher(publisher), Publisher(Lower(publisher)));
  }

  /** The records of `xs` that are overdue on day `today` and not returned, in their order in `xs`. */
  function OverdueIn(xs: seq<BorrowedBook>, today: int): (r: seq<BorrowedBook>)
    reads xs
    ensures forall x :: x in r ==> x in xs
    ensures forall i :: 0 <= i < |r| ==> r[i].IsOverdue(today) && !r[i].returned
    ensures forall i :: 0 <= i < |xs| && xs[i].IsOverdue(today) ==> xs[i] in r
    ensures IsSubsequence(r, xs)
  {
    if xs == [] then []
    else
      var rest := OverdueIn(xs[1..], today);
      assert forall i :: 1 <= i < |xs| ==> xs[i] == xs[1..][i - 1];
      if xs[0].IsOverdue(today) && !xs[0].returned then
        assert ([xs[0]] + rest)[1..] == rest;
        [xs[0]] + rest
      else
        rest
  }

  /** Every overdue, unreturned record is kept as often as it occurs in `xs`, and no other record is kept. */
  lemma {:induction false} OverdueCount(xs: seq<BorrowedBook>, today: int)
    ensures forall x: BorrowedBook :: multiset(OverdueIn(xs, today))[x] == if x.IsOverdue(today) && !x.returned then multiset(xs)[x] else 0
  {
    if xs != [] {
      OverdueCount(xs[1..], today);
      var rest := OverdueIn(xs[1..], today);
      assert multiset(xs) == multiset{xs[0]} + multiset(xs[1..]) by {
        assert xs == [xs[0]] + xs[1..];
      }
      if xs[0].IsOverdue(today) && !xs[0].returned {
        assert multiset(OverdueIn(xs, today)) == multiset{xs[0]} + multiset(rest) by {
          assert OverdueIn(xs, today) == [xs[0]] + rest;
        }
      }
    }
  }

  /** The sum of the prices of the books lent by `bs`, in list order. */
  function PriceSum(bs: seq<BorrowedBook>): (r: real)
    ensures (forall i :: 0 <= i < |bs| ==> bs[i].book.price >= 0.0) ==> r >= 0.0
  {
    if bs == [] then 0.0 else bs[0].book.price + PriceSum(bs[1..])
  }

  lemma {:induction false} PriceSumAppend(a: seq<BorrowedBook>, b: seq<BorrowedBook>)
    ensures PriceSum(a + b) == PriceSum(a) + PriceSum(b)
  {
    if a == [] {
      assert a + b == b;
    } else {
      assert (a + b)[0] == a[0];
      assert (a + b)[1..] == a[1..] + b;
      PriceSumAppend(a[1..], b);
    }
  }

  /** With no negative price, a sub-list costs no more than the whole list. */
  lemma {:induction false} PriceSumSubsequence(xs: seq<BorrowedBook>, ys: seq<BorrowedBook>)
    requires IsSubsequence(xs, ys)
    requires forall i :: 0 <= i < |ys| ==> ys[i].book.price >= 0.0
    ensures PriceSum(xs) <= PriceSum(ys)
    decreases |ys|
  {
    if xs != [] {
      if xs[0] == ys[0] && IsSubsequence(xs[1..], ys[1..]) {
        PriceSumSubsequence(xs[1..], ys[1..]);
      } else {
        PriceSumSubsequence(xs, ys[1..]);
      }
    }
  }

  /** The multiset of records selected from a non-empty sequence. */
  lemma SelectConsMultiset(xs: seq<BorrowedBook>, q: Query)
    requires xs != []
    ensures multiset(Select(xs, q)) == (if Matches(xs[0], q) then multiset{xs[0]} else multiset{}) + multiset(Select(xs[1..], q))
  {
    if Matches(xs[0], q) {
      assert Select(xs, q) == [xs[0]] + Select(xs[1..], q);
    }
  }

  /**
   * The records shared with `os` and those absent from `os` split `xs`:
   * together they are exactly the records of `xs`.
   */
  lemma {:induction false} SelectPartition(xs: seq<BorrowedBook>, os: seq<BorrowedBook>)
    ensures multiset(Select(xs, SharedWith(os))) + multiset(Select(xs, AbsentFrom(os))) == multiset(xs)
  {
    if xs != [] {
      SelectPartition(xs[1..], os);
      SelectConsMultiset(xs, SharedWith(os));
      SelectConsMultiset(xs, AbsentFrom(os));
      assert xs == [xs[0]] + xs[1..];
    }
  }

  /**
   * When the intersection is not cut at MaxSize, the intersection and the
   * difference of the same two lists together hold exactly the records of
   * the first list.
   */
  lemma OperatorsPartition(xs: seq<BorrowedBook>, os: seq<BorrowedBook>)
    requires |Select(xs, SharedWith(os))| <= MaxSize
    ensures multiset(Capped(Select(xs, SharedWith(os)), MaxSize)) + multiset(Select(xs, AbsentFrom(os))) == multiset(xs)
  {
    SelectPartition(xs, os);
  }

  /** The prices of the records shared with `os` and of those absent from `os` add up to the price of `xs`. */
  lemma {:induction false} SelectPartitionPrice(xs: seq<BorrowedBook>, os: seq<BorrowedBook>)
    ensures PriceSum(Select(xs, SharedWith(os))) + PriceSum(Select(xs, AbsentFrom(os))) == PriceSum(xs)
  {
    if xs != [] {
      SelectPartitionPrice(xs[1..], os);
    }
  }

  /** One step of a loop that appends the matching records of `xs`. */
  lemma SelectStep(xs: seq<BorrowedBook>, i: nat, q: Query, done: seq<BorrowedBook>)
    requires i < |xs| && done == Select(xs[..i], q)
    ensures Matches(xs[i], q) ==> Select(xs[..i + 1], q) == done + [xs[i]]
    ensures !Matches(xs[i], q) ==> Select(xs[..i + 1], q) == done
  {
    assert xs[..i + 1] == xs[..i] + [xs[i]];
    SelectSnoc(xs[..i], xs[i], q);
  }

  /** One step of a loop that appends the matching records of `xs` while the result is shorter than `cap`. */
  lemma CappedSelectStep(xs: seq<BorrowedBook>, i: nat, q: Query, cap: int, done: seq<BorrowedBook>)
    requires i < |xs| && done == Capped(Select(xs[..i], q), cap)
    ensures Matches(xs[i], q) && |done| < cap ==> Capped(Select(xs[..i + 1], q), cap) == done + [xs[i]]
    ensures !(Matches(xs[i], q) && |done| < cap) ==> Capped(Select(xs[..i + 1], q), cap) == done
  {
    assert xs[..i + 1] == xs[..i] + [xs[i]];
    SelectSnoc(xs[..i], xs[i], q);
    CappedSnoc(Select(xs[..i], q), xs[i], cap);
  }

  /**
   * What the `+` operator builds: `base`, then each record of `ys` in turn
   * that is not yet in the result (same object), while the result is
   * shorter than `cap`.
   */
  function Merged(base: seq<BorrowedBook>, ys: seq<BorrowedBook>, cap: int): (r: seq<BorrowedBook>)
    ensures |base| <= |r| <= |base| + |ys|
    decreases |ys|
  {
    if ys == [] then base
    else
      var m := Merged(base, ys[..|ys| - 1], cap);
      var y := ys[|ys| - 1];
      if y !in m && |m| < cap then m + [y] else m
  }

  /** The merge starts with all of `base`, in order. */
  lemma {:induction false} MergedKeepsBase(base: seq<BorrowedBook>, ys: seq<BorrowedBook>, cap: int)
    ensures |base| <= |Merged(base, ys, cap)|
    ensures Merged(base, ys, cap)[..|base|] == base
    decreases |ys|
  {
    if ys != [] {
      MergedKeepsBase(base, ys[..|ys| - 1], cap);
    }
  }

  /** The merge grows only while below the cap, and by at most one element per record of `ys`. */
  lemma {:induction false} MergedBound(base: seq<BorrowedBook>, ys: seq<BorrowedBook>, cap: int)
    ensures |Merged(base, ys, cap)| <= |base| + |ys|
    ensures Merged(base, ys, cap) == base || |Merged(base, ys, cap)| <= cap
    decreases |ys|
  {
    if ys != [] {
      MergedBound(base, ys[..|ys| - 1], cap);
    }
  }

  /** Every record of the merge comes from `base` or from `ys`. */
  lemma {:induction false} MergedFrom(base: seq<BorrowedBook>, ys: seq<BorrowedBook>, cap: int)
    ensures forall x :: x in Merged(base, ys, cap) ==> x in base || x in ys
    decreases |ys|
  {
    if ys != [] {
      MergedFrom(base, ys[..|ys| - 1], cap);
    }
  }

  /** Unless the merge filled up to the cap, it holds every record of `ys`. */
  lemma {:induction false} MergedComplete(base: seq<BorrowedBook>, ys: seq<BorrowedBook>, cap: int)
    ensures forall y :: y in ys ==> y in Merged(base, ys, cap) || |Merged(base, ys, cap)| >= cap
    decreases |ys|
  {
    if ys != [] {
      var init := ys[..|ys| - 1];
      MergedComplete(base, init, cap);
      assert ys == init + [ys[|ys| - 1]];
    }
  }

  /**
   * What the merge appends to `base` is, in order, a sub-list of `ys` whose
   * records are pairwise different and none of which is already in `base`.
   */
  lemma {:induction false} MergedTail(base: seq<BorrowedBook>, ys: seq<BorrowedBook>, cap: int)
    ensures |base| <= |Merged(base, ys, cap)|
    ensures IsSubsequence(Merged(base, ys, cap)[|base|..], ys)
    ensures Distinct(Merged(base, ys, cap)[|base|..])
    ensures forall i :: |base| <= i < |Merged(base, ys, cap)| ==> Merged(base, ys, cap)[i] !in base
    decreases |ys|
  {
    if ys != [] {
      var init, y := ys[..|ys| - 1], ys[|ys| - 1];
      assert ys == init + [y];
      MergedTail(base, init, cap);
      MergedKeepsBase(base, init, cap);
      var m := Merged(base, init, cap);
      if y !in m && |m| < cap {
        assert (m + [y])[|base|..] == m[|base|..] + [y];
        SubsequenceSnoc(m[|base|..], init, y);
        forall x | x in m[|base|..] ensures x != y {
          assert x in m;
        }
        assert y !in base by {
          assert base == m[..|base|];
        }
      } else {
        SubsequenceExtend(m[|base|..], init, y);
      }
    }
  }

  /**
   * The records of `ys` a merge into `base` would add with no cap: each
   * record of `ys` that is not in `base`, at its first occurrence in `ys`.
   */
  function Additions(base: seq<BorrowedBook>, ys: seq<BorrowedBook>): (r: seq<BorrowedBook>)
    ensures |r| <= |ys|
    decreases |ys|
  {
    if ys == [] then []
    else
      var init, y := ys[..|ys| - 1], ys[|ys| - 1];
      var a := Additions(base, init);
      if y !in base && y !in init then a + [y] else a
  }

  /** The additions are exactly the records of `ys` that are not in `base`. */
  lemma {:induction false} AdditionsMembers(base: seq<BorrowedBook>, ys: seq<BorrowedBook>)
    ensures forall x :: x in Additions(base, ys) <==> x in ys && x !in base
    decreases |ys|
  {
    if ys != [] {
      var init := ys[..|ys| - 1];
      AdditionsMembers(base, init);
      assert ys == init + [ys[|ys| - 1]];
    }
  }

  /**
   * When the cap is reached, the merge keeps the earliest additions: it is
   * `base` followed by as many of the additions, in their order in `ys`, as
   * fit below `cap`.
   */
  lemma {:induction false} MergedKeepsEarliest(base: seq<BorrowedBook>, ys: seq<BorrowedBook>, cap: int)
    ensures Merged(base, ys, cap) == base + Capped(Additions(base, ys), cap - |base|)
    decreases |ys|
  {
    if ys == [] {
    } else {
      var init, y := ys[..|ys| - 1], ys[|ys| - 1];
      MergedKeepsEarliest(base, init, cap);
      AdditionsMembers(base, init);
      var a, c, m := Additions(base, init), cap - |base|, Merged(base, init, cap);
      CappedSnoc(a, y, c);
      if |m| < cap {
        assert Capped(a, c) == a;
        assert y in m <==> y in base || y in init;
      }
    }
  }

  /** A base without repeated records gives a merge without repeated records. */
  lemma MergedDistinct(base: seq<BorrowedBook>, ys: seq<BorrowedBook>, cap: int)
    requires Distinct(base)
    ensures Distinct(Merged(base, ys, cap))
  {
    MergedTail(base, ys, cap);
    MergedKeepsBase(base, ys, cap);
    var m := Merged(base, ys, cap);
    forall i, j | 0 <= i < j < |m| ensures m[i] != m[j] {
      if j < |base| {
        assert m[i] == base[i] && m[j] == base[j];
      } else if i < |base| {
        assert m[i] == base[i];
      } else {
        assert m[i] == m[|base|..][i - |base|] && m[j] == m[|base|..][j - |base|];
      }
    }
  }

  /** The larger of two capacities, as `max` picks it. */
  function MaxCapacity(a: int, b: int): (r: int)
    ensures r >= a && r >= b && (r == a || r == b)
  {
    if a >= b then a else b
  }

  // ---------------------------------------------------------------------------
  // Debt

  /** A snapshot of a subscriber's overdue records and their total price. */
  datatype Debt = Debt(subscriberName: string, libraryId: string,
                       overdueBooks: seq<BorrowedBook>, totalCost: real)

  function NewDebt(subscriberName: string, libraryId: string, overdueBooks: seq<BorrowedBook>)
    : (d: Debt)
    ensures d.subscriberName == subscriberName && d.libraryId == libraryId
    ensures d.overdueBooks == overdueBooks
    ensures d.totalCost == PriceSum(overdueBooks)
    ensures (forall i :: 0 <= i < |overdueBooks| ==> overdueBooks[i].book.Valid()) ==> d.totalCost >= 0.0
  {
    Debt(subscriberName, libraryId, overdueBooks, PriceSum(overdueBooks))
  }

  // ---------------------------------------------------------------------------
  // Subscribers

  /** A subscriber's card: the records of the books lent, in order, a count and a capacity. */
  class Subscriber {
    var name: string
    var libraryId: string
    var size: int
    var count: int
    var books: seq<BorrowedBook>

    /**
     * The count is the length of the list, and the list holds no more than
     * the capacity. The capacity is not checked when a card is made, so a
     * card with a negative capacity is valid while it is empty.
     */
    ghost predicate Valid()
      reads this
    {
      count == |books| && (count == 0 || count <= size)
    }

    constructor (name: string, libraryId: string, size: int)
      ensures Valid()
      ensures this.name == name && this.libraryId == libraryId && this.size == size
      ensures count == 0 && books == []
    {
      this.name := name;
      this.libraryId := libraryId;
      this.size := size;
      count := 0;
      books := [];
    }

    /** The capacity. */
    function GetSize(): int
      reads this
    {
      size
    }

    /** Indexed access; an index outside the list is an error. */
    function Get(index: int): (r: Result<BorrowedBook, Error>)
      reads this
      ensures r.Success? <==> 0 <= index < |books|
      ensures r.Success? ==> r.value == books[index]
      ensures r.Failure? ==> r.error == IndexOutOfRange
    {
      if 0 <= index < |books| then Success(books[index]) else Failure(IndexOutOfRange)
    }

    /** Indexed replacement; only position `index` changes, and an index outside the list is an error. */
    method SetItem(index: int, value: BorrowedBook) returns (o: Outcome<Error>)
      requires Valid()
      modifies this
      ensures Valid()
      ensures o.Pass? <==> 0 <= index < |old(books)|
      ensures o.Pass? ==> books == old(books)[index := value]
      ensures o.Fail? ==> o.error == IndexOutOfRange && books == old(books)
      ensures count == old(count) && size == old(size)
      ensures name == old(name) && libraryId == old(libraryId)
    {
      if 0 <= index < |books| {
        if books[index] != value {
          books := books[index := value];
        }
        o := Pass;
      } else {
        o := Fail(IndexOutOfRange);
      }
    }

    function Length(): (n: nat)
      reads this
      ensures n == |books|
      ensures Valid() ==> n == count
    {
      |books|
    }

    /** Some record on the card lends a book equal to `book`. */
    function Contains(book: Book): (r: bool)
      reads this
      ensures r <==> exists i :: 0 <= i < |books| && books[i].book == book
      ensures r <==> IndexOf(books, book) >= 0
    {
      HasBook(books, book)
    }

    /**
     * The `+` operator: both cards must belong to the same subscriber. The
     * result has the larger capacity and the merge of this card's records
     * with the other's.
     */
    method Merge(other: Subscriber) returns (r: Result<Subscriber, Error>)
      requires Valid()
      ensures r.Failure? <==> libraryId != other.libraryId
      ensures r.Failure? ==> r.error == DifferentSubscribers
      ensures r.Success? ==>
        fresh(r.value) && r.value.Valid() &&
        r.value.name == name && r.value.libraryId == libraryId &&
        r.value.size == MaxCapacity(size, other.size) &&
        r.value.books == Merged(books, other.books, MaxCapacity(size, other.size))
    {
      if libraryId != other.libraryId {
        return Failure(DifferentSubscribers);
      }
      var newSize := MaxCapacity(size, other.size);
      var result := new Subscriber(name, libraryId, newSize);
      result.books := books;
      result.count := count;
      var ys := other.books;
      for i := 0 to |ys|
        invariant result.books == Merged(books, ys[..i], newSize)
        invariant result.count == |result.books|
        invariant result.name == name && result.libraryId == libraryId && result.size == newSize
      {
        var b := ys[i];
        if b !in result.books && result.count < result.size {
          result.books := result.books + [b];
          result.count := result.count + 1;
        }
        assert ys[..i + 1][..i] == ys[..i];
      }
      assert ys[..|ys|] == ys;
      MergedBound(books, ys, newSize);
      return Success(result);
    }

    /**
     * The `&` operator: the records of this card whose book equals a book
     * on the other card, in this card's order, at most MaxSize of them.
     */
    method Intersect(other: Subscriber) returns (r: Subscriber)
      ensures fresh(r) && r.Valid()
      ensures r.name == name + " & " + other.name && r.libraryId == "intersection"
      ensures r.size == MaxSize
      ensures r.books == Capped(Select(books, SharedWith(other.books)), MaxSize)
    {
      var title := name + " & " + other.name;
      r := new Subscriber(title, "intersection", MaxSize);
      var xs, os := books, other.books;
      for i := 0 to |xs|
        invariant r.books == Capped(Select(xs[..i], SharedWith(os)), MaxSize)
        invariant r.count == |r.books| <= MaxSize
        invariant r.name == title && r.libraryId == "intersection" && r.size == MaxSize
      {
        var b := xs[i];
        CappedSelectStep(xs, i, SharedWith(os), MaxSize, r.books);
        if HasBook(os, b.book) && r.count < r.size {
          r.books := r.books + [b];
          r.count := r.count + 1;
        }
      }
      assert xs[..|xs|] == xs;
    }

    /**
     * The `-` operator: the records of this card whose book equals no book
     * on the other card, in this card's order. The capacity test in the loop
     * never fails, because the result is no longer than this card's list.
     */
    method Subtract(other: Subscriber) returns (r: Subscriber)
      requires Valid()
      ensures fresh(r) && r.Valid()
      ensures r.name == name && r.libraryId == libraryId && r.size == size
      ensures r.books == Select(books, AbsentFrom(other.books))
    {
      r := new Subscriber(name, libraryId, size);
      var xs, os := books, other.books;
      ghost var room := |xs| == 0 || |xs| <= size;
      for i := 0 to |xs|
        invariant r.books == Select(xs[..i], AbsentFrom(os))
        invariant r.count == |r.books| <= i
        invariant r.name == name && r.libraryId == libraryId && r.size == size
      {
        var b := xs[i];
        SelectStep(xs, i, AbsentFrom(os), r.books);
        assert r.count < r.size by { assert room; }
        if !HasBook(os, b.book) && r.count < r.size {
          r.books := r.books + [b];
          r.count := r.count + 1;
        }
      }
      assert xs[..|xs|] == xs;
    }

    /** Lends `book` from day `issueDate`, unless the card is full. */
    method AddBook(book: Book, issueDate: int) returns (o: Outcome<Error>)
      requires Valid()
      modifies this
      ensures Valid()
      ensures o.Pass? <==> old(count) < size
      ensures o.Fail? ==> o.error == LimitReached(size) && books == old(books) && count == old(count)
      ensures o.Pass? ==>
        |books| == |old(books)| + 1 && books[..|old(books)|] == old(books) &&
        fresh(books[|old(books)|]) && books[|old(books)|].book == book &&
        books[|old(books)|].issueDate == issueDate && !books[|old(books)|].returned &&
        count == old(count) + 1
      ensures size == old(size) && name == old(name) && libraryId == old(libraryId)
    {
      if count >= size {
        return Fail(LimitReached(size));
      }
      var borrowed := new BorrowedBook(book, issueDate);
      books := books + [borrowed];
      count := count + 1;
      o := Pass;
    }

    /** Removes the first record lending a book equal to `book`; none is an error. */
    method RemoveBook(book: Book) returns (o: Outcome<Error>)
      requires Valid()
      modifies this
      ensures Valid()
      ensures o.Pass? <==> HasBook(old(books), book)
      ensures o.Pass? ==>
        var i := IndexOf(old(books), book);
        books == old(books)[..i] + old(books)[i + 1..] && count == old(count) - 1
      ensures o.Fail? ==> o.error == BookNotFound && books == old(books) && count == old(count)
      ensures size == old(size) && name == old(name) && libraryId == old(libraryId)
    {
      var i := 0;
      while i < |books|
        invariant 0 <= i <= |books|
        invariant books == old(books) && count == old(count)
        invariant forall j :: 0 <= j < i ==> books[j].book != book
      {
        if books[i].book == book {
          books := books[..i] + books[i + 1..];
          count := count - 1;
          return Pass;
        }
        i := i + 1;
      }
      return Fail(BookNotFound);
    }

    /** The records that are overdue on day `today`, in card order. */
    function FindOverdueBooks(today: int): (r: seq<BorrowedBook>)
      reads this, books
      ensures IsSubsequence(r, books)
      ensures forall i :: 0 <= i < |r| ==> r[i].IsOverdue(today) && !r[i].returned
      ensures forall i :: 0 <= i < |books| && books[i].IsOverdue(today) ==> books[i] in r
      ensures forall i :: 0 <= i < |books| ==>
        multiset(r)[books[i]] == if books[i].IsOverdue(today) && !books[i].returned then multiset(books)[books[i]] else 0
    {
      OverdueCount(books, today);
      OverdueIn(books, today)
    }

    /** The records whose author equals `author` ignoring case, in card order. */
    function FindByAuthor(author: string): (r: seq<BorrowedBook>)
      reads this, books
      ensures IsSubsequence(r, books)
      ensures forall i :: 0 <= i < |r| ==> Lower(r[i].book.author) == Lower(author)
      ensures forall i :: 0 <= i < |books| ==> (books[i] in r <==> Lower(books[i].book.author) == Lower(author))
      ensures forall i :: 0 <= i < |books| ==>
        multiset(r)[books[i]] == if Lower(books[i].book.author) == Lower(author) then multiset(books)[books[i]] else 0
    {
      SelectSubsequence(books, Author(author));
      SelectMembers(books, Author(author));
      SelectCount(books, Author(author));
      Select(books, Author(author))
    }

    /** The records whose publisher equals `publisher` ignoring case, in card order. */
    function FindByPublisher(publisher: string): (r: seq<BorrowedBook>)
      reads this, books
      ensures IsSubsequence(r, books)
      ensures forall i :: 0 <= i < |r| ==> Lower(r[i].book.publisher) == Lower(publisher)
      ensures forall i :: 0 <= i < |books| ==> (books[i] in r <==> Lower(books[i].book.publisher) == Lower(publisher))
      ensures forall i :: 0 <= i < |books| ==>
        multiset(r)[books[i]] == if Lower(books[i].book.publisher) == Lower(publisher) then multiset(books)[books[i]] else 0
    {
      SelectSubsequence(books, Publisher(publisher));
      SelectMembers(books, Publisher(publisher));
      SelectCount(books, Publisher(publisher));
      Select(books, Publisher(publisher))
    }

    /** The records whose book was published in `year`, in card order. */
    function FindByYear(year: int): (r: seq<BorrowedBook>)
      reads this, books
      ensures IsSubsequence(r, books)
      ensures forall i :: 0 <= i < |r| ==> r[i].book.year == year
      ensures forall i :: 0 <= i < |books| ==> (books[i] in r <==> books[i].book.year == year)
      ensures forall i :: 0 <= i < |books| ==>
        multiset(r)[books[i]] == if books[i].book.year == year then multiset(books)[books[i]] else 0
    {
      SelectSubsequence(books, Year(year));
      SelectMembers(books, Year(year));
      SelectCount(books, Year(year));
      Select(books, Year(year))
    }

    /** The debt on day `today`: the overdue records and the sum of their prices. */
    function GenerateDebt(today: int): (d: Debt)
      reads this, books
      ensures d.subscriberName == name && d.libraryId == libraryId
      ensures d.overdueBooks == FindOverdueBooks(today)
      ensures d.totalCost == PriceSum(d.overdueBooks)
      ensures (forall i :: 0 <= i < |books| ==> books[i].book.Valid()) ==>
        0.0 <= d.totalCost <= PriceSum(books)
    {
      var overdue := FindOverdueBooks(today);
      if forall i :: 0 <= i < |books| ==> books[i].book.Valid() then
        assert forall x :: x in overdue ==> x in books;
        assert forall i :: 0 <= i < |overdue| ==> overdue[i] in books;
        PriceSumSubsequence(overdue, books);
        NewDebt(name, libraryId, overdue)
      else
        NewDebt(name, libraryId, overdue)
    }

    /** The total price of the records overdue on day `today`. */
    function CalculateDebtCost(today: int): (c: real)
      reads this, books
      ensures c == GenerateDebt(today).totalCost
      ensures (forall i :: 0 <= i < |books| ==> books[i].book.Valid()) ==> 0.0 <= c <= PriceSum(books)
    {
      PriceSum(FindOverdueBooks(today))
    }
  }
}
