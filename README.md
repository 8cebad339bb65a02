# Library checkout and right-triangle models in Dafny

This project models the two object models of a small teaching repository.

1. The library checkout model.
   - `Book`: a validated value.
   - `BorrowedBook`: a record with a 30-day deadline and an overdue rule.
   - `Subscriber`: a card that holds an ordered list of `BorrowedBook` records, a
     `count` and a capacity `size`. It supports bounds-checked indexing, lending,
     returning, the three list-combining operators `+`, `&` and `-`, and filter
     queries.
   - `Debt`: the overdue records and the sum of their prices.
2. The right-triangle value type `RightTrianglePair`. It has two legs that must
   stay positive, component-wise arithmetic (subtraction clamps each leg at 0.1),
   in-place variants, an order by hypotenuse and a three-element container view.

Files:

- `wrappers.dfy` (module `Wrappers`): `Result` and `Outcome`. Every error the
  source raises is returned as a `Failure`/`Fail` value.
- `sequences.dfy` (module `Sequences`): the order-preserving sub-list relation,
  distinctness and the prefix cut `Capped` used to state the operators.
- `library.dfy` (module `Library`):
  - `Book` and `Debt` are datatypes.
  - `BorrowedBook` and `Subscriber` are classes whose fields the methods update.
  - Each list operation the source runs as a loop (`+`, `&`, `-`, `remove_book`)
    is a method with loop invariants. It is proved against a recursive
    specification function (`Merged`, `Capped(Select(..))`, `Select`, `IndexOf`),
    and the lemmas beside each function prove what the source promises.
  - The list comprehensions (`find_*`) and `sum` are functions.
- `triangle.dfy` (module `Triangle`):
  - `RightTrianglePair` is a class with the two legs as fields.
  - Each setter refuses a leg that is not positive. The in-place operators go
    through the setters, as the source's properties do.
  - Each binary operator is specified by a function on the `Legs` value
    (`Sum`, `Difference`, `ReverseDifference`, `Scaled`, `Divided`). The
    in-place operator and the operator that builds a new pair are both tied to
    that same function.

Modelling choices:

- Dates are whole day numbers. The clock is a `today` parameter, and the
  caller supplies the issue date that the source defaults to "now".
- Record identity is object identity. `BorrowedBook` has no equality of its
  own, so `book not in result._books` in `+` compares the objects themselves,
  not the books they lend.
- `BorrowedBook.book` is a `const`, because no method of the library code reassigns it.
- Legs and prices are `real`. The hypotenuse is never computed: it is a
  `Magnitude`, either `Exact(v)` or `Root(s)`, where `Root(s)` stands for the
  non-negative number whose square is `s`. `Denotes(m, x)` says that `x` is
  that number, and the comparisons are proved against it.
- `requires Valid()` on a `RightTrianglePair` operation, or on a `Subscriber`
  operation, states the class invariant. Every constructor establishes it,
  and every setter and mutating method keeps it.

Three facts about the code that shape the model:

- Every method keeps `count` equal to the number of records, and lending
  stops at `size`. But the constructor does not check `size`, so an empty
  card with a negative capacity exists. `Subscriber.Valid` is therefore `count == |books| && (count == 0 ||
  count <= size)`. Such a card refuses every `add_book`.
- In `-` the loop tests `result.count < result.size`, but that test never
  fails. The result is no longer than this card's list, which already fits its
  capacity. So `Subtract` returns the whole filtered list.
- In `&` the cap is `MAX_SIZE` (100), not either card's size.

## Model

| member | source | states |
|---|---|---|
| `Library.NewBook` | tasks/library_package/library_model.py:16-25 | Construction succeeds exactly when year >= 0 and price >= 0, and then stores all five fields unchanged. A negative year is reported before a negative price. |
| `Library.SameBook` | tasks/library_package/library_model.py:30-39 | Field-by-field book comparison holds exactly when the two books are equal values. |
| `Library.CalculateReturnDate` | tasks/library_package/library_model.py:54-57 | The deadline is exactly MaxDays (30) days after the issue day. |
| `Library.BorrowedBook.constructor` | tasks/library_package/library_model.py:48-52 | A new record lends the given book from the given day, is not returned, and is due 30 days later. |
| `Library.BorrowedBook.MarkReturned` | tasks/library_package/library_model.py:59-60 | Afterwards the record is returned. |
| `Library.BorrowedBook.IsOverdue` | tasks/library_package/library_model.py:62-66 | A returned record is never overdue. An unreturned one is overdue exactly when more than 30 days have passed since issue. |
| `Library.LowerChar` | tasks/library_package/library_model.py:199 | Each Latin capital A-Z becomes its own small letter a-z, each Cyrillic capital U+0410-U+042F its small letter U+0430-U+044F, and each U+0400-U+040F its small letter U+0450-U+045F. The result is never such a capital, and no other character changes. |
| `Library.Lower` | tasks/library_package/library_model.py:199 | Lower-casing keeps the length and maps each character on its own. |
| `Library.LowerCharSameLetter` | tasks/library_package/library_model.py:199 | Two characters lower-case to the same one exactly when they are equal or one is the capital of the other. |
| `Library.LowerEqual` | tasks/library_package/library_model.py:199 | Two strings are equal after lower-casing exactly when they have the same length and agree at each position up to the case of that letter. |
| `Library.LowerIdempotent` | tasks/library_package/library_model.py:199 | Lower-casing twice is the same as lower-casing once. |
| `Library.HasBook` | tasks/library_package/library_model.py:127 | `any(b.book == book ...)` holds exactly when some record of the list lends an equal book. |
| `Library.IndexOf` | tasks/library_package/library_model.py:187-189 | The position of the first record lending the book, or -1 exactly when no record does. |
| `Library.Matches` | tasks/library_package/library_model.py:157-171 | The shared-with criterion holds exactly when some record of the other list lends an equal book, and the absent-from criterion exactly when none does. The year, author and publisher criteria are the tests at lines 199, 206 and 210. |
| `Library.Select` | tasks/library_package/library_model.py:195-210 | The filter never lengthens a list. |
| `Library.SelectMembers` | tasks/library_package/library_model.py:195-210 | A record is in the filtered list exactly when it is in the list and meets the criterion, by record and by position. |
| `Library.SelectCount` | tasks/library_package/library_model.py:195-210 | Filtering keeps each matching record as many times as it occurs in the list, and keeps no other record. |
| `Library.SelectSubsequence` | tasks/library_package/library_model.py:195-210 | The filtered records keep their order: they form a sub-list of the input. |
| `Library.SelectSnoc` | tasks/library_package/library_model.py:155-161 | Filtering a list with one more record at its end appends that record exactly when it matches, as the operator loops do. |
| `Library.SelectAgree` | tasks/library_package/library_model.py:197-207 | Two criteria that agree on every record of a list select the same records. |
| `Library.AuthorIgnoresCase` | tasks/library_package/library_model.py:197-200 | The author query gives the same records for an argument and for its lower-cased form. |
| `Library.PublisherIgnoresCase` | tasks/library_package/library_model.py:202-207 | The publisher query gives the same records for an argument and for its lower-cased form. |
| `Library.OverdueIn` | tasks/library_package/library_model.py:194-195 | Every result record is overdue and not returned, every overdue record is in the result, and the result keeps the order of the list. |
| `Library.OverdueCount` | tasks/library_package/library_model.py:194-195 | Each overdue, unreturned record occurs in the result as many times as in the list, and no other record occurs in it. |
| `Library.PriceSum` | tasks/library_package/library_model.py:228 | With no negative price, the sum of the prices is not negative. |
| `Library.PriceSumAppend` | tasks/library_package/library_model.py:214 | The price sum of two lists put together is the sum of their price sums. |
| `Library.PriceSumSubsequence` | tasks/library_package/library_model.py:212-214 | With no negative price, a sub-list never costs more than the whole list. |
| `Library.SelectConsMultiset` | tasks/library_package/library_model.py:155-175 | The records filtered from a non-empty list are its first record, when that one matches, and then the records filtered from the rest. |
| `Library.SelectPartition` | tasks/library_package/library_model.py:148-176 | The records whose book is on the other list and those whose book is not are, together, exactly the records of the list. |
| `Library.OperatorsPartition` | tasks/library_package/library_model.py:148-176 | When `&` is not cut at 100 records, the results of `&` and of `-` on the same cards are, together, exactly the first card's records. |
| `Library.SelectPartitionPrice` | tasks/library_package/library_model.py:148-176 | The prices of the shared records and of the absent records add up to the price of the whole list. |
| `Library.SelectStep` | tasks/library_package/library_model.py:169-175 | One iteration of the `-` loop extends the filtered prefix by the next record exactly when it matches. |
| `Library.CappedSelectStep` | tasks/library_package/library_model.py:155-161 | One iteration of the `&` loop appends the next record exactly when it matches and the result is still below the cap. |
| `Library.Merged` | tasks/library_package/library_model.py:137-144 | The result of `+` is at least as long as this card's list and at most as long as both lists together. |
| `Library.Additions` | tasks/library_package/library_model.py:141-142 | With no cap, `+` would add, in order, each record of the other card not on this card, at its first occurrence. |
| `Library.AdditionsMembers` | tasks/library_package/library_model.py:141-142 | Those additions are exactly the other card's records that are not on this card. |
| `Library.MergedKeepsEarliest` | tasks/library_package/library_model.py:137-144 | The result of `+` is this card's list followed by the earliest additions, as many as fit below the capacity. The later ones are dropped. |
| `Library.MergedKeepsBase` | tasks/library_package/library_model.py:137-139 | The result of `+` starts with all of this card's records, in order. |
| `Library.MergedBound` | tasks/library_package/library_model.py:141-144 | `+` adds at most one record per record of the other card, and grows past this card's list only up to the capacity. |
| `Library.MergedFrom` | tasks/library_package/library_model.py:141-144 | Every record of the merge comes from one of the two cards. |
| `Library.MergedComplete` | tasks/library_package/library_model.py:141-144 | Unless the merge reached the capacity, it holds every record of the other card. |
| `Library.MergedTail` | tasks/library_package/library_model.py:141-144 | What `+` appends is a sub-list of the other card's records, in their order, without repeats, none of them already on this card. |
| `Library.MergedDistinct` | tasks/library_package/library_model.py:141-144 | A card without repeated records gives a merge without repeated records. |
| `Library.MaxCapacity` | tasks/library_package/library_model.py:136 | The capacity of the merge is the larger of the two capacities. |
| `Library.NewDebt` | tasks/library_package/library_model.py:222-228 | A debt keeps the name, the id and the overdue records, and its total is their price sum, which is not negative for valid books. |
| `Library.Subscriber.constructor` | tasks/library_package/library_model.py:80-87 | A new card is empty, has count 0, and keeps the name, id and capacity it was given. |
| `Library.Subscriber.Get` | tasks/library_package/library_model.py:111-114 | Indexing succeeds exactly for 0 <= index < length and gives that record; any other index is an IndexOutOfRange error. |
| `Library.Subscriber.SetItem` | tasks/library_package/library_model.py:116-121 | Assignment succeeds exactly for an index inside the list and changes only that position. Otherwise it is an error and nothing changes. |
| `Library.Subscriber.Length` | tasks/library_package/library_model.py:123-124 | The length is the number of records, which the invariant makes equal to `count`. |
| `Library.Subscriber.Contains` | tasks/library_package/library_model.py:126-127 | `book in card` holds exactly when some record lends an equal book, that is, when IndexOf finds one. |
| `Library.Subscriber.Merge` | tasks/library_package/library_model.py:129-146 | Cards with different ids are refused. Otherwise the fresh result is valid, has the larger capacity, and holds exactly `Merged` of the two lists at that capacity. |
| `Library.Subscriber.Intersect` | tasks/library_package/library_model.py:148-162 | The fresh, valid result is named "a & b", has id "intersection" and capacity 100. It holds this card's records whose book is on the other card, in order, cut at 100. |
| `Library.Subscriber.Subtract` | tasks/library_package/library_model.py:164-176 | The fresh, valid result keeps this card's name, id and capacity. It holds exactly this card's records whose book is on no record of the other card, in order. |
| `Library.Subscriber.AddBook` | tasks/library_package/library_model.py:178-184 | Below capacity: appends exactly one fresh, unreturned record of the book at the end and increments count. Otherwise: a LimitReached error, and nothing changes. |
| `Library.Subscriber.RemoveBook` | tasks/library_package/library_model.py:186-192 | Deletes exactly the first record lending the book, keeps the order of the rest and decrements count. With no such record: BookNotFound, and nothing changes. |
| `Library.Subscriber.FindOverdueBooks` | tasks/library_package/library_model.py:194-195 | An in-order sub-list of the records that are overdue and not returned. Each such record occurs in it as many times as on the card. |
| `Library.Subscriber.FindByAuthor` | tasks/library_package/library_model.py:197-200 | An in-order sub-list. A record is in it exactly when its author equals the argument ignoring case, and then as many times as on the card. |
| `Library.Subscriber.FindByPublisher` | tasks/library_package/library_model.py:202-207 | An in-order sub-list. A record is in it exactly when its publisher equals the argument ignoring case, and then as many times as on the card. |
| `Library.Subscriber.FindByYear` | tasks/library_package/library_model.py:209-210 | An in-order sub-list. A record is in it exactly when its book's year is the argument, and then as many times as on the card. |
| `Library.Subscriber.GenerateDebt` | tasks/library_package/library_model.py:216-218 | The debt carries the card's name and id and the overdue records, and its total is their price sum. With valid books, that total lies between 0 and the price of every lent book. |
| `Library.Subscriber.CalculateDebtCost` | tasks/library_package/library_model.py:212-214 | The debt cost equals the total of the generated debt, and with valid books lies between 0 and the price of all lent books. |
| `Triangle.Clamp` | tasks/triangle_model.py:93 | `max(0.1, x)` is at least 0.1 and at least x, and is one of the two. |
| `Triangle.ProductSign` | tasks/triangle_model.py:97-100 | A positive leg times k is positive exactly when k is, so the setters refuse `a * k` exactly when k <= 0. |
| `Triangle.SquareMonotone` | tasks/triangle_model.py:39-41 | For non-negative numbers, the order of the squares is the order of the numbers. |
| `Triangle.RootUnique` | tasks/triangle_model.py:39-41 | A hypotenuse denotes at most one number. |
| `Triangle.HypotenuseSquared` | tasks/triangle_model.py:41 | The square of the hypotenuse is `first**2 + second**2`, and it is never negative. |
| `Triangle.HypotenuseOrder` | tasks/triangle_model.py:63-81 | Comparing two hypotenuses with `<` or `<=` agrees with comparing the sums of the squares of the legs. |
| `Triangle.OrderIgnoresOrientation` | tasks/triangle_model.py:55-81 | For any two different legs, the swapped pair differs from the original yet has the same hypotenuse. |
| `Triangle.Validated` | tasks/triangle_model.py:8-32 | Construction through the setters succeeds exactly when both legs are positive, and keeps them. |
| `Triangle.Sum` | tasks/triangle_model.py:83-88 | Adding positive pairs gives positive legs, each longer than before, which the setters accept. |
| `Triangle.Difference` | tasks/triangle_model.py:90-95 | Each leg of `a - b` is at least 0.1 and at least the plain difference, so the setters always accept it. |
| `Triangle.ReverseDifference` | tasks/triangle_model.py:112-117 | Each leg of `k - a` is at least 0.1 and at least `k - leg`, so the setters always accept it. |
| `Triangle.Scaled` | tasks/triangle_model.py:97-100 | Scaling positive legs succeeds exactly for k > 0, giving each leg times k. Otherwise the setters refuse it. |
| `Triangle.ScaledCases` | tasks/triangle_model.py:97-100 | For positive legs: k > 0 gives the scaled legs, and k <= 0 gives NonPositiveLeg. |
| `Triangle.Divided` | tasks/triangle_model.py:102-107 | Division by zero is DivisionByZero. On positive legs it succeeds exactly for k > 0, and a negative k is refused by the setters. The quotient times k gives back each leg. |
| `Triangle.DivideUndoesScale` | tasks/triangle_model.py:97-107 | Dividing by a positive factor undoes multiplying by it. |
| `Triangle.SubtractUndoesAdd` | tasks/triangle_model.py:83-95 | Subtracting what was added restores legs that are at least 0.1. |
| `Triangle.RightTrianglePair.constructor` | tasks/triangle_model.py:8-10 | The default pair has both legs 1. |
| `Triangle.RightTrianglePair.SetFirst` | tasks/triangle_model.py:16-21 | A leg <= 0 is refused with no change. Otherwise the first leg is set. The second leg never changes, and a valid pair stays valid. |
| `Triangle.RightTrianglePair.SetSecond` | tasks/triangle_model.py:27-32 | A leg <= 0 is refused with no change. Otherwise the second leg is set. The first leg never changes, and a valid pair stays valid. |
| `Triangle.RightTrianglePair.Create` | tasks/triangle_model.py:8-10 | Building a pair succeeds exactly when both legs are positive, giving a fresh valid pair with those legs. |
| `Triangle.RightTrianglePair.Eq` | tasks/triangle_model.py:55-58 | Two pairs are equal exactly when both legs are. |
| `Triangle.RightTrianglePair.Ne` | tasks/triangle_model.py:60-61 | `!=` is the exact negation of `==`. |
| `Triangle.RightTrianglePair.Hypotenuse` | tasks/triangle_model.py:39-41 | The hypotenuse denotes exactly the non-negative number whose square is first² + second². |
| `Triangle.RightTrianglePair.Lt` | tasks/triangle_model.py:63-66 | `<` holds exactly when this pair's hypotenuse is shorter than the other's. |
| `Triangle.RightTrianglePair.Le` | tasks/triangle_model.py:68-71 | `<=` holds exactly when this pair's hypotenuse is not longer than the other's. |
| `Triangle.RightTrianglePair.Gt` | tasks/triangle_model.py:73-76 | `>` holds exactly when this pair's hypotenuse is longer than the other's. |
| `Triangle.RightTrianglePair.Ge` | tasks/triangle_model.py:78-81 | `>=` holds exactly when this pair's hypotenuse is not shorter than the other's. |
| `Triangle.ComparisonsAgree` | tasks/triangle_model.py:63-81 | `>` and `>=` are `<` and `<=` with the operands swapped, and `<=` is not-`>`. `<` is not-`>=`, and `<=` together with `>=` means the hypotenuses are equal. |
| `Triangle.RightTrianglePair.Add` | tasks/triangle_model.py:83-88 | `a + b` is a fresh valid pair whose legs are `Sum` of the two. |
| `Triangle.RightTrianglePair.Sub` | tasks/triangle_model.py:90-95 | `a - b` is a fresh valid pair whose legs are the clamped differences. |
| `Triangle.RightTrianglePair.ReverseSub` | tasks/triangle_model.py:112-117 | `k - a` is a fresh valid pair whose legs are `max(0.1, k - leg)`. |
| `Triangle.RightTrianglePair.Mul` | tasks/triangle_model.py:97-100 | `a * k` succeeds exactly for k > 0, giving a fresh pair with the scaled legs. Otherwise it is the setters' error. |
| `Triangle.RightTrianglePair.Div` | tasks/triangle_model.py:102-107 | `a / k` succeeds exactly for k > 0, giving a fresh pair with the divided legs. Zero is DivisionByZero, and a negative k is the setters' error. |
| `Triangle.RightTrianglePair.AddInPlace` | tasks/triangle_model.py:122-127 | After `a += b` the legs are those `a + b` would have, and the pair stays valid. |
| `Triangle.RightTrianglePair.SubInPlace` | tasks/triangle_model.py:129-134 | After `a -= b` the legs are those `a - b` would have, and the pair stays valid. |
| `Triangle.RightTrianglePair.MulInPlace` | tasks/triangle_model.py:136-141 | After `a *= k` the legs are those `a * k` would have. A factor <= 0 is refused with the legs unchanged. |
| `Triangle.RightTrianglePair.DivInPlace` | tasks/triangle_model.py:143-150 | After `a /= k` the legs are those `a / k` would have. Zero and negative divisors are refused with the legs unchanged. |
| `Triangle.RightTrianglePair.ToBool` | tasks/triangle_model.py:158-159 | A pair is true exactly when its legs are positive, the invariant every pair keeps. |
| `Triangle.RightTrianglePair.Elements` | tasks/triangle_model.py:179-180 | Iteration yields three values: the first leg, the second leg and the hypotenuse. |
| `Triangle.RightTrianglePair.GetItem` | tasks/triangle_model.py:164-171 | Index 0, 1 or 2 gives the matching element of the iteration. Any other index is an IndexOutOfRange error. |
| `Triangle.RightTrianglePair.Len` | tasks/triangle_model.py:173-174 | The length is 3, the number of elements iteration yields. |
| `Triangle.RightTrianglePair.Contains` | tasks/triangle_model.py:176-177 | `x in pair` holds exactly when one of the three elements denotes x. |
| `Triangle.MakeRightTrianglePair` | tasks/triangle_model.py:183-184 | Succeeds exactly for positive legs, giving a fresh valid pair with those legs. |

## Left out

- Console I/O is not modelled: the `edit()` methods, `__str__`/`__repr__` and `Book.__hash__`.
- `datetime.now()`, `strptime` and `strftime` are not modelled. Dates are day numbers and "today" is a parameter. Comparing zero-padded `YYYY-MM-DD` strings gives the same order as comparing day numbers.
- Float details are not modelled: IEEE rounding, the `float()` coercion in the setters, and `sqrt`. Legs and prices are exact reals, and the hypotenuse is symbolic.
- `__int__` is not modelled: it truncates a float hypotenuse, which has no exact counterpart.
- `__float__` and `__call__` are not separate members. Both return the hypotenuse, which `Hypotenuse` models.
- `__radd__` and `__rmul__` are not modelled. `__radd__` with a number only reaches the `isinstance` fallback in `__add__`. `__rmul__` is `Mul`.
- The `isinstance` fallbacks that return `None` or `False` for operands of another type are not modelled. Dafny's static types rule those operands out.
- `Library.Lower`: models `str.lower()` for ASCII and basic Cyrillic capitals (U+0400 to U+042F) only, not full Unicode case mapping.
- Assigning a new book to an existing `BorrowedBook` record is not modelled: `BorrowedBook.book` is a `const`, because no method of the library code reassigns it.
- The default arguments are not modelled: `Subscriber`'s `size` defaults to `MAX_SIZE` and `Book`'s fields default to empty strings and zeros. Callers of the model pass every argument.
- `Subscriber.get_size` returns the capacity field. It is `GetSize`, with no contract to state.
- The console demo scripts `tasks/task1.py` and `tasks/task2.py` are not part of this model.
