/** The report generators and the registry that selects one by its type token. */
module Reports {
  import opened Outcomes
  import opened Text
  import opened Entities
  import opened Catalogue

  /** The registered report generators; `Custom` is any other generator, with its token and fixed output. */
  datatype Generator = Overdue | Availability | Members | Custom(token: string, text: string)

  /** What the generators read: the stored books and members, today's day number, the platform
      line separator that `%n` prints and the rendering of a date. */
  datatype Environment = Environment(
    catalogue: seq<BookRecord>,
    members: seq<MemberRecord>,
    today: int,
    lineSeparator: string,
    dateText: int -> string)

  /** `getType`: a built-in generator's token is already in lower case. */
  function TypeOf(g: Generator): (r: string)
    ensures !g.Custom? ==> Lower(r) == r && r != ""
    ensures g.Custom? ==> r == g.token
  {
    match g
    case Overdue => "overdue"
    case Availability => "available"
    case Members => "members"
    case Custom(token, _) => token
  }

  // ---------------------------------------------------------------------------
  // The overdue report

  const OverdueTitle := "OVERDUE BOOKS REPORT\n"
  const OverdueRule := "====================\n"

  function OverdueHeader(): string
  {
    OverdueTitle + OverdueRule
  }

  /** `%s` of a possibly null string. */
  function ShownText(v: Option<string>): string
  {
    match v
    case Some(s) => s
    case None => "null"
  }

  /** `%s` of a possibly null date. */
  function ShownDate(d: Option<int>, dateText: int -> string): string
  {
    match d
    case Some(day) => dateText(day)
    case None => "null"
  }

  /**
   * One book's line: "<title> by <author> - Due: <due> - Checked out by: <holder>" and a line
   * separator. It starts with the title.
   */
  function OverdueLine(b: BookRecord, sep: string, dateText: int -> string): (r: string)
    ensures |r| >= |b.title| + |sep|
    ensures r[..|b.title|] == b.title
  {
    b.title + " by " + b.author + " - Due: " + ShownDate(b.dueDate, dateText)
      + " - Checked out by: " + ShownText(b.checkedOutBy) + sep
  }

  /** The lines of `books`, in order. */
  function OverdueLines(books: seq<BookRecord>, sep: string, dateText: int -> string): string
  {
    if books == [] then ""
    else OverdueLines(books[..|books| - 1], sep, dateText) + OverdueLine(books[|books| - 1], sep, dateText)
  }

  /**
   * The whole overdue report over the books the query returned: it starts with the two header
   * lines, and with no overdue books it is exactly those.
   */
  function OverdueText(books: seq<BookRecord>, sep: string, dateText: int -> string): (r: string)
    ensures |r| >= |OverdueHeader()| && r[..|OverdueHeader()|] == OverdueHeader()
    ensures books == [] ==> r == "OVERDUE BOOKS REPORT\n====================\n"
  {
    OverdueHeader() + OverdueLines(books, sep, dateText)
  }

  /** The lines of two runs of books are the two runs' lines, one after the other. */
  lemma {:induction false} OverdueLinesAppend(xs: seq<BookRecord>, ys: seq<BookRecord>, sep: string, dateText: int -> string)
    ensures OverdueLines(xs + ys, sep, dateText) == OverdueLines(xs, sep, dateText) + OverdueLines(ys, sep, dateText)
    decreases |ys|
  {
    if ys != [] {
      var ys' := ys[..|ys| - 1];
      assert xs + ys == (xs + ys') + [ys[|ys| - 1]];
      assert (xs + ys)[..|xs + ys| - 1] == xs + ys';
      OverdueLinesAppend(xs, ys', sep, dateText);
    } else {
      assert xs + ys == xs;
    }
  }

  /** Book `i`'s line sits between the lines of the books before it and those after it. */
  lemma OverdueLineAt(books: seq<BookRecord>, i: nat, sep: string, dateText: int -> string)
    requires i < |books|
    ensures OverdueLines(books, sep, dateText)
         == OverdueLines(books[..i], sep, dateText) + OverdueLine(books[i], sep, dateText) + OverdueLines(books[i + 1..], sep, dateText)
  {
    assert books == books[..i] + [books[i]] + books[i + 1..];
    OverdueLinesAppend(books[..i] + [books[i]], books[i + 1..], sep, dateText);
    OverdueLinesAppend(books[..i], [books[i]], sep, dateText);
    assert [books[i]][..0] == [];
  }

  /** An occurrence inside `s` is still an occurrence once `s` is surrounded by other text. */
  lemma OccursInside(before: string, s: string, after: string, needle: string, k: int)
    requires OccursAt(s, needle, k)
    ensures OccursAt(before + s + after, needle, |before| + k)
  {
    var text := before + s + after;
    forall j | 0 <= j < |needle| ensures text[|before| + k + j] == needle[j] {
      assert s[k..k + |needle|][j] == needle[j];
    }
    assert text[|before| + k..|before| + k + |needle|] == needle;
  }

  /** A book's line starts with its title. */
  lemma LineStartsWithTitle(b: BookRecord, sep: string, dateText: int -> string)
    ensures OccursAt(OverdueLine(b, sep, dateText), b.title, 0)
  {
    var line := OverdueLine(b, sep, dateText);
    assert line[0..|b.title|] == line[..|b.title|];
  }

  /** Each overdue book's title appears in the report. */
  lemma OverdueMentionsEveryTitle(books: seq<BookRecord>, i: nat, sep: string, dateText: int -> string)
    requires i < |books|
    ensures Contains(OverdueText(books, sep, dateText), books[i].title)
  {
    var line := OverdueLine(books[i], sep, dateText);
    var lines := OverdueLines(books, sep, dateText);
    var before := OverdueLines(books[..i], sep, dateText);
    LineStartsWithTitle(books[i], sep, dateText);
    OverdueLineAt(books, i, sep, dateText);
    OccursInside(before, line, OverdueLines(books[i + 1..], sep, dateText), books[i].title, 0);
    assert OccursAt(lines, books[i].title, |before|);
    OccursInside(OverdueHeader(), lines, "", books[i].title, |before|);
    assert OverdueHeader() + lines + "" == OverdueText(books, sep, dateText);
  }

  /** Appending one book's line to the report of some books gives the report of those books and that one. */
  lemma OverdueTextAppendLine(books: seq<BookRecord>, b: BookRecord, sep: string, dateText: int -> string)
    ensures OverdueText(books + [b], sep, dateText) == OverdueText(books, sep, dateText) + OverdueLine(b, sep, dateText)
  {
    assert (books + [b])[..|books|] == books;
  }

  /**
   * `OverdueReportGenerator.generateReport`: queries the books due before today, then appends
   * the header and one line per book, in query order.
   */
  method GenerateOverdueReport(env: Environment) returns (report: string)
    ensures report == OverdueText(DueBefore(env.catalogue, env.today), env.lineSeparator, env.dateText)
  {
    var overdue := DueBefore(env.catalogue, env.today);
    report := OverdueTitle;
    report := report + OverdueRule;
    var i := 0;
    while i < |overdue|
      invariant 0 <= i <= |overdue|
      invariant report == OverdueText(overdue[..i], env.lineSeparator, env.dateText)
    {
      assert overdue[..i + 1] == overdue[..i] + [overdue[i]];
      OverdueTextAppendLine(overdue[..i], overdue[i], env.lineSeparator, env.dateText);
      report := report + OverdueLine(overdue[i], env.lineSeparator, env.dateText);
      i := i + 1;
    }
    assert overdue[..i] == overdue;
  }

  // ---------------------------------------------------------------------------
  // The count reports

  const AvailablePrefix := "Available books: "
  const MembersPrefix := "Total members: "

  /** `"Available books: " + availableCount`: the prefix, then the count's digits with no leading zero. */
  function AvailabilityText(count: nat): (r: string)
    ensures |r| > |AvailablePrefix| && r[..|AvailablePrefix|] == "Available books: "
    ensures ParseCountReport(AvailablePrefix, r) == Some(count)
    ensures r[|AvailablePrefix|] == '0' ==> count == 0 && |r| == |AvailablePrefix| + 1
  {
    CountReportRoundTrip(AvailablePrefix, count);
    AvailablePrefix + NatText(count)
  }

  /** `"Total members: " + totalMembers`: the prefix, then the count's digits with no leading zero. */
  function MembersText(count: nat): (r: string)
    ensures |r| > |MembersPrefix| && r[..|MembersPrefix|] == "Total members: "
    ensures ParseCountReport(MembersPrefix, r) == Some(count)
    ensures r[|MembersPrefix|] == '0' ==> count == 0 && |r| == |MembersPrefix| + 1
  {
    CountReportRoundTrip(MembersPrefix, count);
    MembersPrefix + NatText(count)
  }

  /** Reads the count back from a report made of `prefix` and a decimal number. */
  function ParseCountReport(prefix: string, s: string): Option<nat>
  {
    if |prefix| < |s| && s[..|prefix|] == prefix && AllDigits(s[|prefix|..])
    then Some(ParseNat(s[|prefix|..]))
    else None
  }

  lemma CountReportRoundTrip(prefix: string, count: nat)
    ensures ParseCountReport(prefix, prefix + NatText(count)) == Some(count)
  {
    var s := prefix + NatText(count);
    assert s[..|prefix|] == prefix && s[|prefix|..] == NatText(count);
    ParseNatText(count);
  }

  // ---------------------------------------------------------------------------
  // Generation by any generator

  /** What `generateReport` returns for each generator. */
  function ReportText(g: Generator, env: Environment): string
  {
    match g
    case Overdue => OverdueText(DueBefore(env.catalogue, env.today), env.lineSeparator, env.dateText)
    case Availability => AvailabilityText(CountAvailable(env.catalogue))
    case Members => MembersText(|env.members|)
    case Custom(_, text) => text
  }

  /** The availability report starts with its prefix and reads back as the number of available books. */
  lemma AvailabilityReportCounts(env: Environment)
    ensures ReportText(Availability, env)[..|AvailablePrefix|] == "Available books: "
    ensures ParseCountReport(AvailablePrefix, ReportText(Availability, env)) == Some(CountAvailable(env.catalogue))
    ensures AvailabilityText(7) == "Available books: 7"
  {
  }

  /** The members report starts with its prefix and reads back as the number of all members. */
  lemma MembersReportCounts(env: Environment)
    ensures ReportText(Members, env)[..|MembersPrefix|] == "Total members: "
    ensures ParseCountReport(MembersPrefix, ReportText(Members, env)) == Some(|env.members|)
    ensures MembersText(3) == "Total members: 3"
  {
  }

  // ---------------------------------------------------------------------------
  // The registry

  const InvalidReportType := "Invalid report type"

  /** The key a generator is registered under: its type token, lower-cased. */
  function Key(g: Generator): string
  {
    Lower(TypeOf(g))
  }

  /** No two generators share a key. */
  predicate DistinctKeys(gens: seq<Generator>)
  {
    forall i, j :: 0 <= i < j < |gens| ==> Key(gens[i]) != Key(gens[j])
  }

  /** `ReportRegistry`: its map from key to generator, fixed at construction. */
  datatype Registry = Registry(byType: map<string, Generator>)

  /** Every generator is stored under its own key. */
  predicate WellKeyed(reg: Registry)
  {
    forall k :: k in reg.byType ==> Key(reg.byType[k]) == k
  }

  /** The keys of all the generators. */
  function KeySet(gens: seq<Generator>): set<string>
  {
    set g | g in gens :: Key(g)
  }

  /** How membership, distinctness and keys of a list relate to those of the list without its last element. */
  lemma SplitLast(gens: seq<Generator>)
    requires gens != []
    ensures forall g :: g in gens <==> g in gens[..|gens| - 1] || g == gens[|gens| - 1]
    ensures KeySet(gens) == KeySet(gens[..|gens| - 1]) + {Key(gens[|gens| - 1])}
    ensures DistinctKeys(gens) <==> DistinctKeys(gens[..|gens| - 1]) && Key(gens[|gens| - 1]) !in KeySet(gens[..|gens| - 1])
  {
    var init, last := gens[..|gens| - 1], gens[|gens| - 1];
    assert gens == init + [last];
    if Key(last) in KeySet(init) {
      var g :| g in init && Key(g) == Key(last);
      var i :| 0 <= i < |init| && init[i] == g;
      assert Key(gens[i]) == Key(gens[|gens| - 1]);
    }
    if DistinctKeys(init) && Key(last) !in KeySet(init) {
      forall i, j | 0 <= i < j < |gens| ensures Key(gens[i]) != Key(gens[j]) {
        if j == |gens| - 1 {
          assert gens[i] in init;
        } else {
          assert gens[i] == init[i] && gens[j] == init[j];
        }
      }
    }
  }

  /**
   * The `ReportRegistry` constructor: collects the generators into a map keyed by lower-cased
   * type; like `Collectors.toMap` without a merge function, it fails on the first repeated key.
   */
  function BuildRegistry(gens: seq<Generator>): (r: Result<Registry>)
    ensures r.Ok? <==> DistinctKeys(gens)
    ensures r.Err? ==> r.error.DuplicateKey?
    ensures r.Ok? ==> r.value.byType.Keys == KeySet(gens)
    ensures r.Ok? ==> forall g :: g in gens ==> r.value.byType[Key(g)] == g
    ensures r.Ok? ==> WellKeyed(r.value)
  {
    if gens == [] then Ok(Registry(map[]))
    else
      var last := gens[|gens| - 1];
      SplitLast(gens);
      match BuildRegistry(gens[..|gens| - 1])
      case Err(e) => Err(e)
      case Ok(reg) =>
        if Key(last) in reg.byType then Err(DuplicateKey(Key(last)))
        else Ok(Registry(reg.byType[Key(last) := last]))
  }

  /**
   * `get`: finds the registered generator whose type matches the request ignoring case, and
   * fails with "Invalid report type" when no registered generator's type does.
   */
  function Get(reg: Registry, reportType: string): (r: Result<Generator>)
    requires WellKeyed(reg)
    ensures r.Ok? ==> r.value in reg.byType.Values && Key(r.value) == Lower(reportType)
    ensures r.Err? <==> forall g :: g in reg.byType.Values ==> Key(g) != Lower(reportType)
    ensures r.Err? ==> r.error == IllegalArgument(InvalidReportType)
  {
    var key := Lower(reportType);
    if key in reg.byType then Ok(reg.byType[key])
    else
      NoneUnderOtherKeys(reg, key);
      Err(IllegalArgument(InvalidReportType))
  }

  /** In a well-keyed registry, a key that is not stored belongs to no stored generator. */
  lemma NoneUnderOtherKeys(reg: Registry, key: string)
    requires WellKeyed(reg) && key !in reg.byType
    ensures forall g :: g in reg.byType.Values ==> Key(g) != key
  {
    forall g | g in reg.byType.Values ensures Key(g) != key {
      var k :| k in reg.byType && reg.byType[k] == g;
    }
  }

  /**
   * `LibraryFacade.generateReport`: asks the registry for the generator, then has it generate
   * its report; an unknown type fails before anything is generated.
   */
  method GenerateByType(reg: Registry, reportType: string, env: Environment) returns (r: Result<string>)
    requires WellKeyed(reg)
    ensures r.Err? <==> forall g :: g in reg.byType.Values ==> Key(g) != Lower(reportType)
    ensures r.Err? ==> r.error == IllegalArgument(InvalidReportType)
    ensures r.Ok? ==> exists g :: g in reg.byType.Values && Key(g) == Lower(reportType) && r.value == ReportText(g, env)
  {
    match Get(reg, reportType) {
      case Err(e) =>
        r := Err(e);
      case Ok(g) =>
        if g == Overdue {
          var report := GenerateOverdueReport(env);
          r := Ok(report);
        } else {
          r := Ok(ReportText(g, env));
        }
    }
  }

  /**
   * After a successful construction, `get` finds a generator exactly when one was registered
   * whose type matches the request ignoring case, and then returns that one.
   */
  lemma GetFindsRegistered(gens: seq<Generator>, reportType: string)
    requires BuildRegistry(gens).Ok?
    ensures Get(BuildRegistry(gens).value, reportType).Ok? <==> exists g :: g in gens && Key(g) == Lower(reportType)
    ensures forall g :: g in gens && Key(g) == Lower(reportType) ==> Get(BuildRegistry(gens).value, reportType) == Ok(g)
  {
  }

  /** Two requests that differ only in case get the same answer. */
  lemma GetIgnoresCase(reg: Registry, t1: string, t2: string)
    requires WellKeyed(reg)
    requires Lower(t1) == Lower(t2)
    ensures Get(reg, t1) == Get(reg, t2)
  {
  }

  /** Two generators whose types differ only in case cannot be registered together. */
  lemma CaseClashRejected(t1: string, t2: string, text1: string, text2: string)
    requires Lower(t1) == Lower(t2)
    ensures BuildRegistry([Custom(t1, text1), Custom(t2, text2)]) == Err(DuplicateKey(Lower(t2)))
  {
  }

  /** The built-in generators, in the order they are registered. */
  const BuiltIns := [Overdue, Availability, Members]

  lemma BuiltInKeys()
    ensures Key(Overdue) == "overdue" && Key(Availability) == "available" && Key(Members) == "members"
  {
  }

  lemma FoldedRequests()
    ensures Lower("OVERDUE") == "overdue" && Lower("Available") == "available"
    ensures Lower("members") == "members" && Lower("unknown") == "unknown"
  {
  }

  /** The three built-in generators register without clash. */
  lemma BuiltInsDistinct()
    ensures DistinctKeys(BuiltIns)
  {
    BuiltInKeys();
    assert BuiltIns[0] == Overdue && BuiltIns[1] == Availability && BuiltIns[2] == Members;
  }

  /** The built-in generators can be registered together. */
  lemma BuiltInRegistryBuilds()
    ensures BuildRegistry(BuiltIns).Ok?
  {
    BuiltInsDistinct();
  }

  /**
   * Any registry built with the built-in generators finds each of them by its token in
   * any case, and fails on a token no generator declares.
   */
  lemma RegistryFindsBuiltIns(gens: seq<Generator>)
    requires DistinctKeys(gens)
    requires Overdue in gens && Availability in gens && Members in gens
    requires forall g :: g in gens ==> Key(g) != "unknown"
    ensures Get(BuildRegistry(gens).value, "OVERDUE") == Ok(Overdue)
    ensures Get(BuildRegistry(gens).value, "Available") == Ok(Availability)
    ensures Get(BuildRegistry(gens).value, "members") == Ok(Members)
    ensures Get(BuildRegistry(gens).value, "unknown") == Err(IllegalArgument("Invalid report type"))
  {
    BuiltInKeys();
    FoldedRequests();
    GetFindsRegistered(gens, "unknown");
  }
}
