# Library rules engine — Dafny model

A model of the tier-based rules of a library lending service (package
`edu.trincoll.service`), with proofs of what those rules promise:

- **Checkout policies.** Each membership tier (Regular, Premium, Student) resolves to a
  borrowing limit and a loan period (3/14, 10/30, 5/21). A member may check out a book
  while holding fewer books than the limit.
- **Late fees.** Each tier resolves to a fee calculator, modelled in whole cents: Regular
  charges 50 cents a day with no floor, Premium charges nothing, and Student charges
  25 cents a day and nothing unless late.
- **Member and book services.** These update entities in place. A member's checked-out
  count goes up and down, in Java `int` arithmetic, with the decrement floored at zero. A
  book is lent out (holder, due date, unavailable) and returned (all cleared). Every
  update is saved once. The repositories are classes that record each `save`, so the
  number of saves and the state saved can be stated.
- **Search.** The search type is checked without regard to case and dispatched to a
  title lookup (containment, ignoring case), an author lookup (exact match) or an ISBN
  lookup. The ISBN result holds at most one book.
- **Factories and registry.** The policy factory, the fee-calculator factory and the report
  registry are functions of their inputs here. Asking twice for the same tier or type
  therefore gives equal answers, and the registry cannot change after it is built.
- **Reports.** Three generators are modelled. The overdue report (a header, then one line
  per book due before today) is built by a loop, as the source builds it. The other two
  are "Available books: N" and "Total members: N". A registry keys the generators by their
  lower-cased type token. Two tokens that collide are rejected, and an unknown token fails.
  Asking for a report by type goes through the registry, then the generator it finds.

Modules, one per component: `Outcomes` (Option, Result, the exceptions as values),
`Text` (case folding, substring search, decimal rendering), `Entities` (tiers, Java
`int`, member and book records and classes), `CheckoutPolicies`, `LateFees`, `Members`,
`Books`, `Catalogue` (the book repository's queries over the sequence of stored books),
`Search`, `Reports` and `Workflow` (how the pieces compose in a checkout and a return).

Inputs that the source takes from its surroundings are parameters here:

- today's date, as a day number;
- the stored books, as a sequence of records;
- the stored members, as a sequence of records;
- the platform line separator printed by `%n`;
- the text of a rendered date.

## Model

| member | source | states |
|---|---|---|
| Text.Lower | src/main/java/edu/trincoll/service/SearchFacade.java:20 | lower-casing keeps the length, folds each ASCII capital and leaves no capital behind |
| Text.Contains | src/test/java/edu/trincoll/service/BookSearchServiceTest.java:30-36 | the containment test holds exactly when the needle occurs at some position of the text |
| Text.NatText | src/main/java/edu/trincoll/service/report/AvailabilityReportGenerator.java:21 | a count renders as a non-empty run of decimal digits; it starts with 0 only when the count is 0, and then it is exactly "0" |
| Text.ParseNatText | src/main/java/edu/trincoll/service/report/AvailabilityReportGenerator.java:21 | reading a rendered count back gives the count |
| Text.NatTextInjective | src/main/java/edu/trincoll/service/report/MembersReportGenerator.java:20 | different counts render differently |
| Entities.Wrap32 | src/main/java/edu/trincoll/service/MemberService.java:30 | a result in Java int range is unchanged; one past either end wraps to the other end |
| CheckoutPolicies.PolicyFor | src/main/java/edu/trincoll/service/CheckoutPolicyFactory.java:10-16 | every tier resolves, with no fallback, to a policy with a positive limit and loan period |
| CheckoutPolicies.PolicyTable | src/main/java/edu/trincoll/service/CheckoutPolicyFactory.java:11-15 | Regular is 3 books for 14 days, Premium 10 for 30, Student 5 for 21 |
| CheckoutPolicies.CanCheckout | src/main/java/edu/trincoll/service/RegularCheckoutPolicy.java:18-20 | a granted checkout leaves the count plus one within the limit; a refusal means the count has reached it |
| CheckoutPolicies.LimitIsExclusive | src/test/java/edu/trincoll/service/LibraryServiceTest.java:209-222 | a member at exactly the limit is refused, one below it is granted, for every tier |
| CheckoutPolicies.CanCheckoutReadsOnlyCount | src/main/java/edu/trincoll/service/PremiumCheckoutPolicy.java:18-20 | two members with the same count get the same decision |
| CheckoutPolicies.CanCheckoutMonotone | src/main/java/edu/trincoll/service/StudentCheckoutPolicy.java:18-20 | holding fewer books never turns a grant into a refusal |
| CheckoutPolicies.TiersAreOrdered | src/main/java/edu/trincoll/service/CheckoutPolicyFactory.java:12-14 | Regular < Student < Premium in both limit and loan period, so a grant under a lower tier is a grant under a higher one |
| LateFees.RegularLateFee | src/main/java/edu/trincoll/service/RegularLateFeeCalculator.java:9-11 | the regular fee is a whole number of 50-cent steps; with no floor it is 0 only on time and negative exactly for early returns |
| LateFees.PremiumLateFee | src/main/java/edu/trincoll/service/PremiumLateFeeCalculator.java:8-10 | the premium fee is waived (0) however late the return |
| LateFees.StudentLateFee | src/main/java/edu/trincoll/service/StudentLateFeeCalculator.java:10-13 | the student fee is never negative, and 0 exactly when the return is not late |
| LateFees.LateFee | src/main/java/edu/trincoll/service/LateFeeCalculatorFactory.java:22-28 | each calculator charges its own tier's fee; for any non-negative lateness every calculator charges between 0 and the regular fee; only the regular calculator can give a negative fee, for an early return |
| LateFees.CalculatorFor | src/main/java/edu/trincoll/service/LateFeeCalculatorFactory.java:22-28 | each tier maps to its own calculator and to no other |
| LateFees.RegularFeeSteps | src/main/java/edu/trincoll/service/RegularLateFeeCalculator.java:9-11 | the regular fee is 0 on time and grows by exactly 50 cents per day |
| LateFees.StudentFeeMonotone | src/main/java/edu/trincoll/service/StudentLateFeeCalculator.java:10-13 | the student fee never decreases as lateness grows |
| LateFees.StudentPaysHalf | src/main/java/edu/trincoll/service/StudentLateFeeCalculator.java:7-12 | when late, twice the student fee equals the regular fee |
| LateFees.FeesAreOrdered | src/main/java/edu/trincoll/service/LateFeeCalculatorFactory.java:23-27 | for any non-negative lateness the fees are ordered Premium <= Student <= Regular |
| LateFees.FiveDaysLate | src/test/java/edu/trincoll/service/LibraryServiceTest.java:279-298 | five days late costs 250, 0 and 125 cents for Regular, Premium and Student |
| Members.Incremented | src/main/java/edu/trincoll/service/MemberService.java:30 | the count goes up by exactly one, except that the largest int wraps to the smallest |
| Members.Decremented | src/main/java/edu/trincoll/service/MemberService.java:37 | the result is never negative: a positive count goes down by one, 0 and negatives go to 0, and the smallest int (whose minus one wraps) gives the largest |
| Members.DecrementUndoesIncrement | src/main/java/edu/trincoll/service/MemberService.java:28-40 | decrement after increment restores every non-negative count, the largest int included |
| Members.IncrementUndoesDecrement | src/main/java/edu/trincoll/service/MemberService.java:28-40 | increment after decrement restores every positive count |
| Members.RepeatedDecrementsFloorAtZero | src/test/java/edu/trincoll/service/MemberServiceTest.java:101-111 | n decrements from a count c >= 0 end at max(0, c - n), never below zero |
| Members.MemberRepository.Save | src/main/java/edu/trincoll/service/MemberService.java:31 | each save appends the member's current fields to the saved log and hands the same member back |
| Members.MemberService.IncrementCheckoutCount | src/main/java/edu/trincoll/service/MemberService.java:27-32 | null member: the exception "member cannot be null", nothing saved; otherwise only the count changes, by Incremented, the member is saved once in its new state and returned; validity is unchanged |
| Members.MemberService.DecrementCheckoutCount | src/main/java/edu/trincoll/service/MemberService.java:34-40 | null member: the exception "member cannot be null", nothing saved; otherwise only the count changes, by Decremented, the member is saved once in its new state and returned; validity is unchanged |
| Members.MemberService.IsValid | src/main/java/edu/trincoll/service/MemberService.java:45-51 | a valid member is never null (the other cases are in Members.IsValidCases) |
| Members.MemberService.Save | src/main/java/edu/trincoll/service/MemberService.java:53-56 | saves the member once and returns it |
| Members.IsValidCases | src/main/java/edu/trincoll/service/MemberService.java:45-51 | a member is valid exactly when it is present with an id and a status |
| Books.CheckedOut | src/main/java/edu/trincoll/service/BookService.java:19-22 | the lent record is unavailable, holds the member's email (null when the email is) and the given due day, and is the same catalogue entry |
| Books.Returned | src/main/java/edu/trincoll/service/BookService.java:26-29 | the returned record is available with no holder and no due date, and the same catalogue entry |
| Books.ReturnUndoesCheckout | src/main/java/edu/trincoll/service/BookService.java:19-31 | lending a shelved book and taking it back gives back exactly the original record, whatever the holder |
| Books.ReturnIdempotent | src/main/java/edu/trincoll/service/BookService.java:26-31 | returning twice is the same as returning once |
| Books.TransitionsKeepConsistency | src/main/java/edu/trincoll/service/BookService.java:19-31 | a return always leaves a book unavailable exactly when it has a holder and a due date; a checkout does so exactly when the member's email is present, and a null email leaves the book unavailable with no holder |
| Books.BookRepository.Save | src/main/java/edu/trincoll/service/BookService.java:23 | each save appends the book's current fields to the saved log |
| Books.BookService.CheckoutBook | src/main/java/edu/trincoll/service/BookService.java:19-24 | the book becomes lent to the member's email, as it is, until today + loan period, nothing else about it changes, and it is saved once in that state; no check is made |
| Books.BookService.ReturnBook | src/main/java/edu/trincoll/service/BookService.java:26-31 | the book is cleared to available with no holder and no due date, nothing else changes, and it is saved once |
| Books.BookService.IsAvailable | src/main/java/edu/trincoll/service/BookService.java:33-35 | returns the flag and changes nothing; for a consistent book, true means it is on the shelf |
| Catalogue.Matching | src/main/java/edu/trincoll/service/SearchFacade.java:21-24 | a query keeps exactly the catalogue's books that satisfy its condition, and all of them exactly when every book does |
| Catalogue.MatchingCounts | src/main/java/edu/trincoll/service/report/AvailabilityReportGenerator.java:20 | a query keeps each matching book as many times as the catalogue holds it, and no other book |
| Catalogue.MatchingAppend | src/main/java/edu/trincoll/service/report/OverdueReportGenerator.java:24-27 | a query over two runs of books is the query over the first run followed by the query over the second, so catalogue order is kept |
| Catalogue.TitleMatches | src/test/java/edu/trincoll/service/BookSearchServiceTest.java:30-36 | the title lookup returns exactly the catalogue books whose title contains the term, ignoring case |
| Catalogue.AuthorMatches | src/test/java/edu/trincoll/service/LibraryServiceTest.java:83-89 | the author lookup returns exactly the catalogue books whose author equals the term |
| Catalogue.FindByIsbn | src/main/java/edu/trincoll/service/SearchFacade.java:25-28 | the ISBN lookup finds a catalogue book with exactly that ISBN, and finds none only when no book has it |
| Catalogue.DueBefore | src/main/java/edu/trincoll/service/report/OverdueReportGenerator.java:24 | the overdue query returns exactly the catalogue books with a due date strictly before today |
| Catalogue.CountAvailable | src/main/java/edu/trincoll/service/report/AvailabilityReportGenerator.java:20 | the available count is at most the catalogue size, equals it exactly when every book is available, and is 0 exactly when none is |
| Catalogue.CountAvailableAppend | src/main/java/edu/trincoll/service/report/AvailabilityReportGenerator.java:20 | the count of an empty catalogue is 0, and adding a book adds one exactly when that book is available |
| Search.Search | src/main/java/edu/trincoll/service/SearchFacade.java:16-32 | fails with "Invalid search type" exactly when the type is null or, lower-cased, none of title, author, isbn; otherwise returns catalogue books only |
| Search.SearchIgnoresTypeCase | src/main/java/edu/trincoll/service/SearchFacade.java:20 | two type tokens that differ only in case give the same outcome |
| Search.SearchByTitle | src/main/java/edu/trincoll/service/SearchFacade.java:21-22 | "title" returns exactly the books whose title contains the unchanged term, ignoring case |
| Search.SearchByAuthor | src/main/java/edu/trincoll/service/SearchFacade.java:23-24 | "author" returns exactly the books whose author equals the unchanged term |
| Search.SearchByIsbn | src/main/java/edu/trincoll/service/SearchFacade.java:25-28 | "isbn" returns at most one book, which has that ISBN; it is empty exactly when no book has it |
| Reports.TypeOf | src/main/java/edu/trincoll/service/report/OverdueReportGenerator.java:20 | a built-in generator's token ("overdue", "available", "members") is non-empty and already lower-case; any other generator's is its own token |
| Reports.OverdueLine | src/main/java/edu/trincoll/service/report/OverdueReportGenerator.java:28-29 | a book's line starts with its title and is at least as long as the title and the separator |
| Reports.OverdueText | src/main/java/edu/trincoll/service/report/OverdueReportGenerator.java:25-30 | every overdue report starts with the two header lines, and with no overdue books it is exactly them |
| Reports.OverdueLinesAppend | src/main/java/edu/trincoll/service/report/OverdueReportGenerator.java:27-30 | the lines for xs + ys are the lines for xs followed by the lines for ys |
| Reports.OverdueLineAt | src/main/java/edu/trincoll/service/report/OverdueReportGenerator.java:27-30 | book i's line sits after the lines of the books before it and before those after it |
| Reports.OverdueTextAppendLine | src/main/java/edu/trincoll/service/report/OverdueReportGenerator.java:27-29 | appending one book's line to a report gives the report of the books so far and that book |
| Reports.OverdueMentionsEveryTitle | src/test/java/edu/trincoll/service/OverdueReportGeneratorTest.java:24-38 | every overdue book's title occurs in the report |
| Reports.GenerateOverdueReport | src/main/java/edu/trincoll/service/report/OverdueReportGenerator.java:22-32 | the appending loop produces the header followed by one line per book due before today, in query order |
| Reports.AvailabilityText | src/main/java/edu/trincoll/service/report/AvailabilityReportGenerator.java:21 | the text starts with "Available books: ", reads back as the count it was given, and has no leading zero (0 renders as "0") |
| Reports.MembersText | src/main/java/edu/trincoll/service/report/MembersReportGenerator.java:20 | the text starts with "Total members: ", reads back as the count it was given, and has no leading zero (0 renders as "0") |
| Reports.CountReportRoundTrip | src/main/java/edu/trincoll/service/report/MembersReportGenerator.java:19-20 | a prefix followed by a rendered count reads back as that count |
| Reports.AvailabilityReportCounts | src/main/java/edu/trincoll/service/report/AvailabilityReportGenerator.java:18-22 | the report starts with "Available books: " and reads back as the number of available books; 7 gives "Available books: 7" |
| Reports.MembersReportCounts | src/main/java/edu/trincoll/service/report/MembersReportGenerator.java:17-21 | the report starts with "Total members: " and reads back as the number of all members; 3 gives "Total members: 3" |
| Reports.BuiltInKeys | src/main/java/edu/trincoll/service/report/OverdueReportGenerator.java:20 | the built-in generators are keyed "overdue", "available" and "members" |
| Reports.BuildRegistry | src/main/java/edu/trincoll/service/report/ReportRegistry.java:12-15 | construction succeeds exactly when the lower-cased tokens are distinct; the keys are those tokens, each maps to its generator, and every stored generator sits under its own key; otherwise it fails with a duplicate key |
| Reports.Get | src/main/java/edu/trincoll/service/report/ReportRegistry.java:17-21 | in a registry whose generators sit under their own keys, the lookup returns a registered generator whose token matches the request ignoring case, and fails with "Invalid report type" exactly when no registered generator's does |
| Reports.GenerateByType | src/main/java/edu/trincoll/service/LibraryFacade.java:50 | asking for a report by type fails with "Invalid report type" exactly when no registered generator matches the type ignoring case; otherwise it returns the report text of a registered generator that matches |
| Reports.GetFindsRegistered | src/test/java/edu/trincoll/service/ReportRegistryTest.java:43-53 | after construction, lookup succeeds exactly when some generator's token matches the request ignoring case, and returns that generator |
| Reports.GetIgnoresCase | src/main/java/edu/trincoll/service/report/ReportRegistry.java:18 | requests that differ only in case get the same answer |
| Reports.CaseClashRejected | src/main/java/edu/trincoll/service/report/ReportRegistry.java:13-14 | two generators whose tokens differ only in case cannot be registered together |
| Reports.BuiltInsDistinct | src/main/java/edu/trincoll/service/report/ReportRegistry.java:13-14 | the three built-in tokens are distinct once lower-cased |
| Reports.BuiltInRegistryBuilds | src/main/java/edu/trincoll/service/report/ReportRegistry.java:12-15 | the three built-in generators register together without failure |
| Reports.RegistryFindsBuiltIns | src/main/java/edu/trincoll/service/report/ReportRegistry.java:17-21 | a registry holding the built-ins finds each by its token in any case, and fails with "Invalid report type" on an undeclared one |
| Workflow.GrantedCheckout | src/test/java/edu/trincoll/service/LibraryServiceTest.java:169-207 | a granted checkout lends the book until today + 14, 30 or 21 days by tier (the 21-day student case is LibraryServiceTest.java:343-361), to the member's email when present; the new count is one more and within the limit |
| Workflow.CheckoutThenReturn | src/test/java/edu/trincoll/service/LibraryServiceTest.java:250-277 | returning a book after a granted checkout restores both the book record and the member's count |
| Workflow.ReturnOfOnlyBook | src/test/java/edu/trincoll/service/LibraryServiceTest.java:264-276 | a member holding one book holds none after the return, and the book is back on the shelf |

## Left out

- The orchestrating library service (checkout and return workflows, their messages, notifications) is not part of this model; only the composition lemmas in `Workflow`, taken from its unit tests, touch it.
- `LibraryFacade.generateReport` is modelled by `Reports.GenerateByType`. Its other three methods delegate in one line to the book search service and to `SearchFacade`, and are left out.
- `EmailNotificationService` and `NotificationService` only print or declare; they are left out.
- `MemberService.findById` and `findByEmail` pass straight through to the repository; they are left out.
- Repositories are not a database. Only `save` is modelled, as an append to a log of saved records. The queries are functions over the catalogue sequence. `save` hands back the same entity.
- `BookSearchService` is not part of this model. The title lookup is case-insensitive containment, as its test stubs `findByTitleContainingIgnoreCase` (BookSearchServiceTest.java:30-36). The author lookup is an exact match on the author, as the library service's test stubs `findByAuthor` with the full name (LibraryServiceTest.java:83-89). The ISBN lookup takes the first book with exactly that ISBN (BookSearchServiceTest.java:39-44). Result order is the catalogue's order.
- `Text.Lower`: folds ASCII letters only. Java's `toLowerCase` uses the default locale and the full Unicode case mapping, so a Turkish locale, for example, folds "TITLE" differently.
- Fees are exact integer cents of an unbounded integer `daysLate`. The source computes a `double` from a `long`, which rounds beyond 2^53.
- Dates are unbounded day numbers. `LocalDate`'s range limit, its `toString` format and the platform line separator are parameters of the reports.
- A null book, a null member passed to `checkoutBook` or `canCheckout`, a null report type and a null membership type all raise a `NullPointerException` in the source; here the types exclude them. A null search term is excluded too: `SearchFacade` hands it unchanged to lookups that are not part of this model. A null search type, a null member passed to the member service and a null member email are modelled.
- Strings in a book record (title, author, ISBN) are never null here. A null holder or null due date prints as "null", as `%s` prints it.
- Transactions (`@Transactional`), Spring wiring and the order in which Spring injects the generators are not modelled. The registry takes the generators in the order given.
- The `Book` entity class is not part of this model. `BookService` sets an availability flag (`setAvailable`, `isAvailable`), while the tests and `countByStatus` read a status (AVAILABLE/CHECKED_OUT). The model assumes both denote one two-valued field, kept as the record's `available` flag: AVAILABLE is true, CHECKED_OUT is false. If they were two separate fields, a checkout would not change the count the availability report prints; `Catalogue.CountAvailable` counts the flag.
- Only the student fee is floored at zero (StudentLateFeeCalculator.java:11). `LateFees.RegularLateFee` states that the regular fee is negative for early returns.
- Book records leave out the publication date: the core never reads it.
