/**
  The session's question table (`st.session_state.df`) and the one operation
  that changes it: submitting a question from the sidebar form. The table is
  created once from the seeded rows, sorted by Subject then Frequency; a
  submission numbers the new question one past the greatest ID (compared as
  strings), puts it in front of the table and sorts the whole table again.
*/
module Store {
  import opened Wrappers
  import opened Ids
  import opened Records
  import opened Seeding
  import opened Catalog

  /** Every ID is a `Q` followed by a four-digit number. */
  predicate FourDigitIds(rows: seq<Record>) {
    forall r | r in rows :: 1000 <= r.number <= 9999
  }

  /**
    No record is held twice and no two different records share a question
    number, hence (IdInjective) an ID.
  */
  predicate UniqueIds(rows: seq<Record>) {
    (forall r | r in multiset(rows) :: multiset(rows)[r] == 1)
    && forall r1, r2 | r1 in multiset(rows) && r2 in multiset(rows) && r1 != r2 :: r1.number != r2.number
  }

  /** The record the form submits under number `n`; every submission starts out Pending. */
  function Submission(n: int, subject: Subject, question: string, marks: Marks, years: seq<int>): (r: Record)
    ensures r.Id() == IdOf(n) && r.status == Pending
    ensures Consistent(r)
  {
    Record(n, question, subject, Pending, marks, |years|, years)
  }

  class QuestionStore {
    /** The table, in its current row order. */
    var df: seq<Record>

    /** The table is sorted by Subject then Frequency, and Frequency counts each row's years. */
    ghost predicate Valid()
      reads this
    {
      Sorted(SubjectThenFrequency, df) && forall r | r in df :: Consistent(r)
    }

    /** The first run of the session: seed the rows and sort them by Subject, then Frequency. */
    constructor (draws: seq<seq<seq<Variant>>>)
      requires DrawsFit(SUBJECT_QUESTIONS, draws)
      ensures Valid()
      ensures multiset(df) == multiset(SeedRows(SUBJECT_QUESTIONS, draws))
    {
      var data := Seed(SUBJECT_QUESTIONS, draws);
      var sorted := SortRows(SubjectThenFrequency, data);
      PermutationConsistent(sorted, data);
      df := sorted;
    }

    /**
      Submitting a question. When no number can be read off the greatest ID
      (an empty table, or an ID that is not `Q` and digits) the source
      raises and the table is left as it was. Otherwise the new record is
      put in front and the table is sorted again: it is the old rows plus
      the new one, sorted by Subject then Frequency.
    */
    method Submit(subject: Subject, question: string, marks: Marks, years: seq<int>) returns (added: Option<Record>)
      requires Valid()
      modifies this
      ensures Valid()
      ensures NextNumber(IdList(old(df))).None? ==> added.None? && df == old(df)
      ensures NextNumber(IdList(old(df))).Some? ==>
        added == Some(Submission(NextNumber(IdList(old(df))).value, subject, question, marks, years))
      ensures added.Some? ==> multiset(df) == multiset(old(df)) + multiset{added.value}
      ensures added.Some? ==> |df| == |old(df)| + 1
      ensures old(FourDigitIds(df) && UniqueIds(df)) && added.Some? && NextNumber(IdList(old(df))).value <= 9999
        ==> FourDigitIds(df) && UniqueIds(df) && forall r | r in old(df) :: r.number != added.value.number
    {
      match NextNumber(IdList(df))
      case None =>
        added := None;
      case Some(n) =>
        var row := Submission(n, subject, question, marks, years);
        var old_df := df;
        df := SortRows(SubjectThenFrequency, [row] + df);
        assert multiset([row] + old_df) == multiset(old_df) + multiset{row};
        PermutationLength(df, [row] + old_df);
        PermutationConsistent(df, [row] + old_df);
        if FourDigitIds(old_df) && UniqueIds(old_df) && n <= 9999 {
          SubmitKeepsIdsUnique(old_df, n, subject, question, marks, years);
        }
        added := Some(row);
    }
  }

  /**
    The number a submission gets depends only on which rows the table holds,
    not on the order the last sort left them in.
  */
  lemma ReorderedNextNumber(a: seq<Record>, b: seq<Record>)
    requires multiset(a) == multiset(b)
    ensures NextNumber(IdList(a)) == NextNumber(IdList(b))
  {
    IdListPermutation(a, b);
    NextNumberReorder(IdList(a), IdList(b));
  }

  /** Rows whose numbers differ position by position hold no record twice and no number twice. */
  lemma {:induction false} DistinctIdsUnique(rows: seq<Record>)
    requires forall i, j | 0 <= i < j < |rows| :: rows[i].number != rows[j].number
    ensures UniqueIds(rows)
  {
    if rows != [] {
      var init, last := rows[..|rows| - 1], rows[|rows| - 1];
      assert rows == init + [last];
      DistinctIdsUnique(init);
      forall r | r in init
        ensures r.number != last.number
      {
        var i :| 0 <= i < |init| && init[i] == r;
        assert rows[i] == r;
      }
      assert multiset(rows) == multiset(init) + multiset{last};
    }
  }

  /** The seeded rows are numbered 1005 to 1100, each number once, and 1100 is the first. */
  lemma SeededIds(draws: seq<seq<seq<Variant>>>)
    requires DrawsFit(SUBJECT_QUESTIONS, draws)
    ensures |SeedRows(SUBJECT_QUESTIONS, draws)| > 0
    ensures SeedRows(SUBJECT_QUESTIONS, draws)[0].number == FIRST_ID
    ensures forall r | r in SeedRows(SUBJECT_QUESTIONS, draws) :: FIRST_ID - 95 <= r.number <= FIRST_ID
    ensures UniqueIds(SeedRows(SUBJECT_QUESTIONS, draws))
  {
    var data := SeedRows(SUBJECT_QUESTIONS, draws);
    CatalogSize();
    SeedSize(SUBJECT_QUESTIONS, draws);
    SeedRowsNumbered(SUBJECT_QUESTIONS, draws);
    forall r | r in data
      ensures FIRST_ID - 95 <= r.number <= FIRST_ID
    {
      var i :| 0 <= i < |data| && data[i] == r;
    }
    DistinctIdsUnique(data);
  }

  /** The ID column of a table with four-digit IDs. */
  lemma IdListWidth(rows: seq<Record>)
    requires FourDigitIds(rows)
    ensures forall x | x in IdList(rows) :: HasWidth(x, 4)
  {
    var ids := IdList(rows);
    forall x | x in ids
      ensures HasWidth(x, 4)
    {
      var k :| 0 <= k < |ids| && ids[k] == x;
      assert rows[k] in rows;
      var n: nat := rows[k].number;
      FourDigits(n);
      assert x == IdOf(n);
    }
  }

  /** A table numbered from 1000 up to `top`, with `top` among its numbers, gets `top` + 1 next. */
  lemma NextAfterTop(rows: seq<Record>, top: nat)
    requires 1000 <= top <= 9999
    requires forall r | r in rows :: 1000 <= r.number <= top
    requires exists r | r in rows :: r.number == top
    ensures NextNumber(IdList(rows)) == Some(top + 1)
  {
    var ids := IdList(rows);
    var m := MaxText(ids);
    var mi :| 0 <= mi < |ids| && ids[mi] == m;
    assert rows[mi] in rows;
    var n: nat := rows[mi].number;
    var t :| t in rows && t.number == top;
    var ti :| 0 <= ti < |rows| && rows[ti] == t;
    assert ids[ti] in ids;
    FourDigits(n);
    FourDigits(top);
    SameWidthIdBelow(n, top);
    assert n == top;
    NextNumberOfMax(ids, top);
  }

  /**
    Whatever order the seeded rows are in, the first submission is numbered
    1101 (ID Q1101): all seeded IDs have four digits, so the greatest string
    is Q1100. The table has four-digit IDs, each held once.
  */
  lemma SeededNextNumber(draws: seq<seq<seq<Variant>>>, rows: seq<Record>)
    requires DrawsFit(SUBJECT_QUESTIONS, draws)
    requires multiset(rows) == multiset(SeedRows(SUBJECT_QUESTIONS, draws))
    ensures NextNumber(IdList(rows)) == Some(FIRST_ID + 1)
    ensures FourDigitIds(rows) && UniqueIds(rows)
  {
    SeededIds(draws);
    ReorderedSeed(SeedRows(SUBJECT_QUESTIONS, draws), rows);
    assert UniqueIds(SeedRows(SUBJECT_QUESTIONS, draws));
  }

  /** A reordering of rows numbered 1005 to 1100, holding 1100 and each number once. */
  lemma ReorderedSeed(data: seq<Record>, rows: seq<Record>)
    requires |data| > 0 && data[0].number == FIRST_ID
    requires forall r | r in data :: FIRST_ID - 95 <= r.number <= FIRST_ID
    requires multiset(rows) == multiset(data)
    ensures NextNumber(IdList(rows)) == Some(FIRST_ID + 1)
    ensures FourDigitIds(rows)
  {
    ReorderedNumbers(data, rows);
    NextAfterTop(rows, FIRST_ID);
  }

  lemma ReorderedNumbers(data: seq<Record>, rows: seq<Record>)
    requires |data| > 0 && data[0].number == FIRST_ID
    requires forall r | r in data :: FIRST_ID - 95 <= r.number <= FIRST_ID
    requires multiset(rows) == multiset(data)
    ensures forall r | r in rows :: 1000 <= r.number <= FIRST_ID
    ensures exists r | r in rows :: r.number == FIRST_ID
  {
    forall r | r in rows
      ensures 1000 <= r.number <= FIRST_ID
    {
      assert r in multiset(rows);
      assert r in data;
    }
    assert data[0] in multiset(rows);
  }

  /**
    While the next number still has four digits, a submission keeps the IDs
    four digits wide and each held once: no row has the new number.
  */
  lemma SubmitKeepsIdsUnique(rows: seq<Record>, n: int, subject: Subject, question: string, marks: Marks, years: seq<int>)
    requires FourDigitIds(rows) && UniqueIds(rows)
    requires NextNumber(IdList(rows)) == Some(n) && n <= 9999
    ensures forall r | r in rows :: r.number != n
    ensures FourDigitIds(SortRows(SubjectThenFrequency, [Submission(n, subject, question, marks, years)] + rows))
    ensures UniqueIds(SortRows(SubjectThenFrequency, [Submission(n, subject, question, marks, years)] + rows))
  {
    FreshSubmission(rows, n);
    InsertKeepsIds(rows, Submission(n, subject, question, marks, years));
  }

  /** The next number, when it is at most 9999, has four digits and no row has it. */
  lemma FreshSubmission(rows: seq<Record>, n: int)
    requires FourDigitIds(rows)
    requires NextNumber(IdList(rows)) == Some(n) && n <= 9999
    ensures forall r | r in rows :: r.number != n
    ensures 1000 <= n
  {
    var ids := IdList(rows);
    IdListWidth(rows);
    NextAmongFourDigits(ids, n);
    forall r | r in rows
      ensures r.number != n
    {
      var k :| 0 <= k < |rows| && rows[k] == r;
      assert ids[k] == IdOf(r.number);
    }
    // The number before n is a four-digit one in use.
    var k :| 0 <= k < |ids| && ids[k] == IdOf(n - 1);
    assert rows[k] in rows;
    IdInjective(n - 1, rows[k].number);
  }

  /** Among four-digit IDs, the next number's ID is unused and the one before it is used. */
  lemma NextAmongFourDigits(ids: seq<string>, n: int)
    requires forall x | x in ids :: HasWidth(x, 4)
    requires NextNumber(ids) == Some(n)
    ensures IdOf(n) !in ids && IdOf(n - 1) in ids
  {
    NextNumberSameWidth(ids, 4);
  }

  /** Adding a four-digit record whose number no row has, then sorting, keeps the IDs four digits wide and unique. */
  lemma InsertKeepsIds(rows: seq<Record>, row: Record)
    requires FourDigitIds(rows) && UniqueIds(rows)
    requires 1000 <= row.number <= 9999
    requires forall r | r in rows :: r.number != row.number
    ensures FourDigitIds(SortRows(SubjectThenFrequency, [row] + rows))
    ensures UniqueIds(SortRows(SubjectThenFrequency, [row] + rows))
  {
    var all := [row] + rows;
    var sorted := SortRows(SubjectThenFrequency, all);
    assert multiset(all) == multiset(rows) + multiset{row};
    forall r | r in sorted
      ensures 1000 <= r.number <= 9999
    {
      assert r in multiset(all);
    }
    assert row !in multiset(rows);
  }
}
