/**
  The read-only computations over a snapshot of the question table: the row
  filters (a boolean mask applied with df[mask]), the subject view, the two
  counts and the high-frequency table of the Analysis panel, and the
  prediction for a typed-in question. None of them changes the table: each
  takes the rows as a value.
*/
module Analysis {
  import opened Records

  /** The threshold of the "Highly Repeated Questions" panel. */
  const HIGH_FREQUENCY := 5

  /** The boolean masks the source applies to the table. */
  datatype Criterion =
    | OfSubject(subject: Subject)   // df.Subject == subject
    | IsFeatured                    // df.Status == "Featured"
    | Frequent                      // df.Frequency >= 5
    | Asks(question: string)        // df.Question == question

  predicate Meets(c: Criterion, r: Record) {
    match c
    case OfSubject(s) => r.subject == s
    case IsFeatured => r.status == Featured
    case Frequent => r.frequency >= HIGH_FREQUENCY
    case Asks(q) => r.question == q
  }

  /** df[mask]: the rows meeting `c`, in table order. */
  function Select(rows: seq<Record>, c: Criterion): (r: seq<Record>)
    ensures forall x {:trigger multiset(r)[x]} :: multiset(r)[x] == if Meets(c, x) then multiset(rows)[x] else 0
  {
    if rows == [] then []
    else
      var last := rows[|rows| - 1];
      var before := Select(rows[..|rows| - 1], c);
      assert rows == rows[..|rows| - 1] + [last];
      if Meets(c, last) then before + [last] else before
  }

  /** df[mask] on one row is that row when it meets the mask, and nothing otherwise. */
  lemma SelectSingleton(x: Record, c: Criterion)
    ensures Select([x], c) == if Meets(c, x) then [x] else []
  {
    assert [x][..0] == [];
  }

  /** df[mask] keeps the table's order: filtering two tables one after the other is filtering each in turn. */
  lemma {:induction false} SelectAppend(a: seq<Record>, b: seq<Record>, c: Criterion)
    ensures Select(a + b, c) == Select(a, c) + Select(b, c)
    decreases |b|
  {
    if b == [] {
      assert a + b == a;
    } else {
      var n := |b| - 1;
      SelectAppend(a, b[..n], c);
      assert (a + b)[..|a + b| - 1] == a + b[..n];
    }
  }

  /**
    Every row of the table keeps its place in df[mask]: the selected rows
    before it come first, then the row itself if it meets the mask, then the
    selected rows after it.
  */
  lemma SelectSplit(rows: seq<Record>, c: Criterion, k: nat)
    requires k < |rows|
    ensures Select(rows, c)
      == Select(rows[..k], c) + (if Meets(c, rows[k]) then [rows[k]] else []) + Select(rows[k + 1..], c)
  {
    assert rows == rows[..k] + [rows[k]] + rows[k + 1..];
    SelectAppend(rows[..k] + [rows[k]], rows[k + 1..], c);
    SelectAppend(rows[..k], [rows[k]], c);
    SelectSingleton(rows[k], c);
  }

  lemma SelectSplitEverywhere(rows: seq<Record>, c: Criterion)
    ensures forall k | 0 <= k < |rows| ::
      Select(rows, c) == Select(rows[..k], c) + (if Meets(c, rows[k]) then [rows[k]] else []) + Select(rows[k + 1..], c)
  {
    forall k | 0 <= k < |rows|
      ensures Select(rows, c) == Select(rows[..k], c) + (if Meets(c, rows[k]) then [rows[k]] else []) + Select(rows[k + 1..], c)
    {
      SelectSplit(rows, c, k);
    }
  }

  lemma SelectSortedByAnyKey(rows: seq<Record>, c: Criterion)
    ensures forall key | Sorted(key, rows) :: Sorted(key, Select(rows, c))
  {
    forall key | Sorted(key, rows)
      ensures Sorted(key, Select(rows, c))
    {
      SelectSorted(key, rows, c);
    }
  }

  /** The positions of the rows meeting `c`. */
  function Matching(rows: seq<Record>, c: Criterion): set<int> {
    set i | 0 <= i < |rows| && Meets(c, rows[i])
  }

  /** len(df[mask]) is the number of rows the mask selects. */
  lemma {:induction false} SelectSize(rows: seq<Record>, c: Criterion)
    ensures |Select(rows, c)| == |Matching(rows, c)|
  {
    if rows != [] {
      var n := |rows| - 1;
      SelectSize(rows[..n], c);
      MatchingSnoc(rows, c);
    }
  }

  /** The matching positions of a table are those of all but its last row, plus the last if it matches. */
  lemma MatchingSnoc(rows: seq<Record>, c: Criterion)
    requires rows != []
    ensures Matching(rows, c)
      == Matching(rows[..|rows| - 1], c) + (if Meets(c, rows[|rows| - 1]) then {|rows| - 1} else {})
    ensures |rows| - 1 !in Matching(rows[..|rows| - 1], c)
  {
    var n := |rows| - 1;
    assert forall i | 0 <= i < n :: rows[..n][i] == rows[i];
  }

  lemma {:induction false} SelectSorted(key: SortKey, rows: seq<Record>, c: Criterion)
    requires Sorted(key, rows)
    ensures Sorted(key, Select(rows, c))
  {
    if rows != [] {
      var n := |rows| - 1;
      var before := rows[..n];
      SelectSorted(key, before, c);
      if Meets(c, rows[n]) {
        var s := Select(before, c);
        forall i | 0 <= i < |s|
          ensures Precedes(key, s[i], rows[n])
        {
          SelectedRowFrom(before, c, i);
        }
        SortedSnoc(key, s, rows[n]);
      }
    }
  }

  /** Every row of df[mask] is a row of the table. */
  lemma SelectedRowFrom(rows: seq<Record>, c: Criterion, i: nat)
    requires i < |Select(rows, c)|
    ensures exists k :: 0 <= k < |rows| && rows[k] == Select(rows, c)[i]
  {
    var s := Select(rows, c);
    assert s[i] in multiset(s);
    assert s[i] in rows;
  }

  /** A sorted table stays sorted when a row every row precedes is appended. */
  lemma SortedSnoc(key: SortKey, s: seq<Record>, x: Record)
    requires Sorted(key, s)
    requires forall i | 0 <= i < |s| :: Precedes(key, s[i], x)
    ensures Sorted(key, s + [x])
  {
    var t := s + [x];
    forall i, j | 0 <= i < j < |t|
      ensures Precedes(key, t[i], t[j])
    {
      if j < |s| {
        assert t[i] == s[i] && t[j] == s[j];
      } else {
        assert t[i] == s[i];
      }
    }
  }

  /** The first row of df[mask] is the first row of the table meeting `c`. */
  lemma {:induction false} SelectHead(rows: seq<Record>, c: Criterion, i: nat)
    requires i < |rows| && Meets(c, rows[i])
    requires forall j | 0 <= j < i :: !Meets(c, rows[j])
    ensures |Select(rows, c)| > 0 && Select(rows, c)[0] == rows[i]
  {
    var n := |rows| - 1;
    var before := rows[..n];
    if i < n {
      SelectHead(before, c, i);
    } else {
      SelectNone(before, c);
    }
  }

  lemma {:induction false} SelectNone(rows: seq<Record>, c: Criterion)
    requires forall j | 0 <= j < |rows| :: !Meets(c, rows[j])
    ensures Select(rows, c) == []
  {
    if rows != [] {
      SelectNone(rows[..|rows| - 1], c);
    }
  }

  // ---------------------------------------------------------------------------
  // The subject view (streamlit_app.py:162-169)
  // ---------------------------------------------------------------------------

  datatype Selection = AllSubjects | OnlySubject(subject: Subject)

  /**
    The table shown under the subject filter: for one subject, that subject's
    rows sorted by Frequency descending; for "All Subjects", every row sorted
    by Subject, then Frequency descending. It is computed on a copy.
  */
  function SubjectView(rows: seq<Record>, selection: Selection): (view: seq<Record>)
    ensures selection.OnlySubject? ==>
      Sorted(FrequencyOnly, view)
      && forall x {:trigger multiset(view)[x]} :: multiset(view)[x] == if x.subject == selection.subject then multiset(rows)[x] else 0
    ensures selection.AllSubjects? ==>
      Sorted(SubjectThenFrequency, view) && multiset(view) == multiset(rows)
  {
    match selection
    case OnlySubject(s) => SortRows(FrequencyOnly, Select(rows, OfSubject(s)))
    case AllSubjects => SortRows(SubjectThenFrequency, rows)
  }

  /**
    The total the page reports for a subject is the number of table rows with
    that subject; for "All Subjects" it is the size of the table.
  */
  lemma SubjectViewSize(rows: seq<Record>, selection: Selection)
    ensures selection.OnlySubject? ==>
      |SubjectView(rows, selection)| == |Matching(rows, OfSubject(selection.subject))|
    ensures selection.AllSubjects? ==> |SubjectView(rows, selection)| == |rows|
  {
    var view := SubjectView(rows, selection);
    assert |multiset(view)| == |view|;
    match selection
    case OnlySubject(s) =>
      SelectSize(rows, OfSubject(s));
      assert multiset(view) == multiset(Select(rows, OfSubject(s)));
      assert |multiset(Select(rows, OfSubject(s)))| == |Select(rows, OfSubject(s))|;
    case AllSubjects =>
      assert |multiset(rows)| == |rows|;
  }

  // ---------------------------------------------------------------------------
  // The Analysis panel (streamlit_app.py:214-221)
  // ---------------------------------------------------------------------------

  /** len(filtered_df[filtered_df.Status == "Featured"]). */
  function FeaturedCount(view: seq<Record>): (n: nat)
    ensures n == |Matching(view, IsFeatured)|
  {
    SelectSize(view, IsFeatured);
    |Select(view, IsFeatured)|
  }

  /** filtered_df[filtered_df.Frequency >= 5], in the order of the view. */
  function HighFrequencyTable(view: seq<Record>): (t: seq<Record>)
    ensures forall x {:trigger multiset(t)[x]} :: multiset(t)[x] == if x.frequency >= HIGH_FREQUENCY then multiset(view)[x] else 0
    ensures forall k | 0 <= k < |view| ::
      t == Select(view[..k], Frequent)
           + (if view[k].frequency >= HIGH_FREQUENCY then [view[k]] else [])
           + Select(view[k + 1..], Frequent)
    ensures forall key | Sorted(key, view) :: Sorted(key, t)
  {
    SelectSplitEverywhere(view, Frequent);
    SelectSortedByAnyKey(view, Frequent);
    Select(view, Frequent)
  }

  /** len(filtered_df[filtered_df.Frequency >= 5]). */
  function HighFrequencyCount(view: seq<Record>): (n: nat)
    ensures n == |Matching(view, Frequent)|
    ensures n == |HighFrequencyTable(view)|
  {
    SelectSize(view, Frequent);
    |Select(view, Frequent)|
  }

  // ---------------------------------------------------------------------------
  // Prediction (streamlit_app.py:96-106)
  // ---------------------------------------------------------------------------

  /** A year falls in the window when current_year - year <= window. */
  predicate Recent(year: int, window: int, currentYear: int) {
    currentYear - year <= window
  }

  /** The positions of the years within the window. */
  function RecentPositions(years: seq<int>, window: int, currentYear: int): set<int> {
    set k | 0 <= k < |years| && Recent(years[k], window, currentYear)
  }

  /** sum(1 for year in years if current_year - year <= window). */
  function CountRecent(years: seq<int>, window: int, currentYear: int): (n: nat)
    ensures n == |RecentPositions(years, window, currentYear)|
    ensures n <= |years|
    ensures n == |years| <==> forall k | 0 <= k < |years| :: Recent(years[k], window, currentYear)
    ensures n == 0 <==> forall k | 0 <= k < |years| :: !Recent(years[k], window, currentYear)
  {
    if years == [] then 0
    else
      var last := |years| - 1;
      var rest := CountRecent(years[..last], window, currentYear);
      RecentPositionsSnoc(years, window, currentYear);
      assert forall k | 0 <= k < last :: years[..last][k] == years[k];
      rest + (if Recent(years[last], window, currentYear) then 1 else 0)
  }

  /** The recent positions of a list are those of all but its last year, plus the last if it is recent. */
  lemma RecentPositionsSnoc(years: seq<int>, window: int, currentYear: int)
    requires years != []
    ensures RecentPositions(years, window, currentYear)
      == RecentPositions(years[..|years| - 1], window, currentYear)
         + (if Recent(years[|years| - 1], window, currentYear) then {|years| - 1} else {})
    ensures |years| - 1 !in RecentPositions(years[..|years| - 1], window, currentYear)
  {
    var n := |years| - 1;
    assert forall k | 0 <= k < n :: years[..n][k] == years[k];
  }

  /**
    predict_appearances: the rows whose Question equals `question` exactly; none
    gives 0, otherwise the first of them in table order decides, by counting its
    years within the window.
  */
  function PredictAppearances(rows: seq<Record>, question: string, window: int, currentYear: int): (n: nat)
    ensures (forall i | 0 <= i < |rows| :: rows[i].question != question) ==> n == 0
    ensures forall i | 0 <= i < |rows| && rows[i].question == question
                       && (forall j | 0 <= j < i :: rows[j].question != question) ::
              n == CountRecent(rows[i].years, window, currentYear) && n <= |rows[i].years|
  {
    var matches := Select(rows, Asks(question));
    PredictFirst(rows, question, matches);
    if |matches| == 0 then 0
    else CountRecent(matches[0].years, window, currentYear)
  }

  lemma PredictFirst(rows: seq<Record>, question: string, matches: seq<Record>)
    requires matches == Select(rows, Asks(question))
    ensures (forall i | 0 <= i < |rows| :: rows[i].question != question) ==> |matches| == 0
    ensures forall i | 0 <= i < |rows| && rows[i].question == question
                       && (forall j | 0 <= j < i :: rows[j].question != question) ::
              |matches| > 0 && matches[0] == rows[i]
  {
    forall i | 0 <= i < |rows| && rows[i].question == question
                 && (forall j | 0 <= j < i :: rows[j].question != question)
      ensures |matches| > 0 && matches[0] == rows[i]
    {
      SelectHead(rows, Asks(question), i);
    }
    if |matches| > 0 {
      assert matches[0] in multiset(matches);
      assert matches[0] in rows;
    }
  }

  /** A wider window never counts fewer years. */
  lemma {:induction false} CountRecentMonotone(years: seq<int>, w1: int, w2: int, currentYear: int)
    requires w1 <= w2
    ensures CountRecent(years, w1, currentYear) <= CountRecent(years, w2, currentYear)
  {
    if years != [] {
      CountRecentMonotone(years[..|years| - 1], w1, w2, currentYear);
    }
  }

  /** With the current year fixed, the prediction grows with the window. */
  lemma PredictMonotone(rows: seq<Record>, question: string, w1: int, w2: int, currentYear: int)
    requires w1 <= w2
    ensures PredictAppearances(rows, question, w1, currentYear)
         <= PredictAppearances(rows, question, w2, currentYear)
  {
    var matches := Select(rows, Asks(question));
    if |matches| > 0 {
      CountRecentMonotone(matches[0].years, w1, w2, currentYear);
    }
  }

  /**
    Only the first matching row counts, so two orders of the same rows can give
    different predictions when a question text appears twice.
  */
  lemma PredictDependsOnOrder()
    ensures var a := Record(1, "q", Physics, Pending, Five, 1, [2023]);
            var b := Record(2, "q", Physics, Pending, Five, 1, [2000]);
            multiset([a, b]) == multiset([b, a])
            && PredictAppearances([a, b], "q", 5, 2024) == 1
            && PredictAppearances([b, a], "q", 5, 2024) == 0
  {
    var a := Record(1, "q", Physics, Pending, Five, 1, [2023]);
    var b := Record(2, "q", Physics, Pending, Five, 1, [2000]);
    assert CountRecent(a.years, 5, 2024) == 1;
    assert CountRecent(b.years, 5, 2024) == 0;
  }

  /** Years 2019, 2021 and 2023 seen from 2024: all three lie within 5 years, only 2023 within 2. */
  lemma PredictNewtonExample(rows: seq<Record>)
    requires |rows| > 0
    requires rows[0].question == "Explain Newton's laws of motion with practical examples"
    requires rows[0].years == [2019, 2021, 2023]
    ensures PredictAppearances(rows, "Explain Newton's laws of motion with practical examples", 5, 2024) == 3
    ensures PredictAppearances(rows, "Explain Newton's laws of motion with practical examples", 2, 2024) == 1
  {
    var ys := rows[0].years;
    assert ys[..2] == [2019, 2021] && ys[..2][..1] == [2019] && [2019][..0] == [];
    assert CountRecent([2019], 2, 2024) == 0;
    assert CountRecent([2019, 2021], 2, 2024) == 0;
    assert CountRecent(ys, 2, 2024) == 1;
  }
}
