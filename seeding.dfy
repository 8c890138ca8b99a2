/**
  The fixture the app builds once per session: for every canonical question
  of every subject it emits two or three records, each with its own sample of
  years, status and marks, numbering them Q1100, Q1099, ... in emission
  order. The pseudo-random draws are an input: `draws[s][j]` is the list of
  variants drawn for question `j` of bank `s`, and `DrawsFit` states what
  random.randint, random.sample and random.choice can return.
*/
module Seeding {
  import opened Records

  /** The number of the first seeded question; later ones count down. */
  const FIRST_ID := 1100

  /** Seeded years come from range(2018, 2024). */
  const FIRST_YEAR := 2018
  const LAST_YEAR := 2023

  /** The subject's canonical questions, in catalog order. */
  datatype Bank = Bank(subject: Subject, questions: seq<string>)

  /** One drawn variant: a sample of years, a status and a mark value. */
  datatype Variant = Variant(years: seq<int>, status: Status, marks: Marks)


  predicate DistinctYears(ys: seq<int>) {
    forall i, j | 0 <= i < j < |ys| :: ys[i] != ys[j]
  }

  /** What random.sample(range(2018, 2024), random.randint(1, 5)) can return. */
  predicate YearSample(ys: seq<int>) {
    1 <= |ys| <= 5
    && DistinctYears(ys)
    && forall k | 0 <= k < |ys| :: FIRST_YEAR <= ys[k] <= LAST_YEAR
  }

  /** The shape of a seeded record: Frequency counts its years, which form a year sample. */
  predicate SeedShaped(r: Record) {
    Consistent(r) && YearSample(r.years)
  }

  /** One list of variants per canonical question. */
  predicate DrawsShape(banks: seq<Bank>, draws: seq<seq<seq<Variant>>>) {
    |draws| == |banks|
    && forall s | 0 <= s < |banks| :: |draws[s]| == |banks[s].questions|
  }

  /** Draws the generator can produce: 2 or 3 variants per question, each with a year sample. */
  predicate DrawsFit(banks: seq<Bank>, draws: seq<seq<seq<Variant>>>) {
    DrawsShape(banks, draws)
    && (forall s, j | 0 <= s < |draws| && 0 <= j < |draws[s]| :: 2 <= |draws[s][j]| <= 3)
    && (forall s, j, k | 0 <= s < |draws| && 0 <= j < |draws[s]| && 0 <= k < |draws[s][j]| ::
          YearSample(draws[s][j][k].years))
  }

  // ---------------------------------------------------------------------------
  // The records the loop emits, as functions of the draws
  // ---------------------------------------------------------------------------

  function SeedRecord(n: int, subject: Subject, question: string, v: Variant): Record {
    Record(n, question, subject, v.status, v.marks, |v.years|, v.years)
  }

  /** How many variants the first `j` questions drew. */
  function VariantTotal(ds: seq<seq<Variant>>, j: nat): nat
    requires j <= |ds|
  {
    if j == 0 then 0 else VariantTotal(ds, j - 1) + |ds[j - 1]|
  }

  /** How many variants the first `s` banks drew. */
  function DrawTotal(draws: seq<seq<seq<Variant>>>, s: nat): nat
    requires s <= |draws|
  {
    if s == 0 then 0 else DrawTotal(draws, s - 1) + VariantTotal(draws[s - 1], |draws[s - 1]|)
  }

  /** How many canonical questions the first `s` banks hold. */
  function QuestionCount(banks: seq<Bank>, s: nat): nat
    requires s <= |banks|
  {
    if s == 0 then 0 else QuestionCount(banks, s - 1) + |banks[s - 1].questions|
  }

  /**
    `data` after the records of the first `k` variants of one question are
    appended to it; each takes the number FIRST_ID - (rows before it).
  */
  function EmitVariants(data: seq<Record>, subject: Subject, question: string, vs: seq<Variant>, k: nat): (r: seq<Record>)
    requires k <= |vs|
    ensures |r| == |data| + k
  {
    if k == 0 then data
    else
      var before := EmitVariants(data, subject, question, vs, k - 1);
      before + [SeedRecord(FIRST_ID - |before|, subject, question, vs[k - 1])]
  }

  /** `data` after the records of the first `j` questions of a bank are appended to it. */
  function EmitQuestions(data: seq<Record>, subject: Subject, qs: seq<string>, ds: seq<seq<Variant>>, j: nat): (r: seq<Record>)
    requires |ds| == |qs| && j <= |qs|
    ensures |r| == |data| + VariantTotal(ds, j)
  {
    if j == 0 then data
    else EmitVariants(EmitQuestions(data, subject, qs, ds, j - 1), subject, qs[j - 1], ds[j - 1], |ds[j - 1]|)
  }

  /** `data` after the records of the first `s` banks are appended to it. */
  function EmitBanks(data: seq<Record>, banks: seq<Bank>, draws: seq<seq<seq<Variant>>>, s: nat): (r: seq<Record>)
    requires DrawsShape(banks, draws) && s <= |banks|
    ensures |r| == |data| + DrawTotal(draws, s)
  {
    if s == 0 then data
    else EmitQuestions(EmitBanks(data, banks, draws, s - 1), banks[s - 1].subject, banks[s - 1].questions, draws[s - 1], |draws[s - 1]|)
  }

  /** The records the seeding loop produces from the draws, in emission order. */
  function SeedRows(banks: seq<Bank>, draws: seq<seq<seq<Variant>>>): seq<Record>
    requires DrawsShape(banks, draws)
  {
    EmitBanks([], banks, draws, |banks|)
  }

  // ---------------------------------------------------------------------------
  // The seeding loop (streamlit_app.py:69-88)
  // ---------------------------------------------------------------------------

  /** Records emitted so far: the i-th is numbered FIRST_ID - i and is seed-shaped. */
  predicate NumberedFromFirst(data: seq<Record>) {
    forall i | 0 <= i < |data| :: Numbered(data[i], i)
  }

  predicate Numbered(r: Record, i: int) {
    r.number == FIRST_ID - i && SeedShaped(r)
  }

  /**
    The nested loop that fills `data`: each emitted record takes the current
    question_id, which then drops by one. The records are those of `SeedRows`,
    their IDs run Q1100, Q1099, ... in order, and each is seed-shaped.
  */
  method Seed(banks: seq<Bank>, draws: seq<seq<seq<Variant>>>) returns (data: seq<Record>)
    requires DrawsFit(banks, draws)
    ensures data == SeedRows(banks, draws)
    ensures forall i | 0 <= i < |data| :: data[i].number == FIRST_ID - i
    ensures forall i | 0 <= i < |data| :: SeedShaped(data[i])
  {
    data := [];
    var questionId := FIRST_ID;
    for s := 0 to |banks|
      invariant data == EmitBanks([], banks, draws, s)
      invariant questionId == FIRST_ID - |data|
    {
      data, questionId := SeedBank(banks[s], draws[s], data, questionId);
    }
    SeedRowsNumbered(banks, draws);
  }

  /** The loop over one subject's questions. */
  method SeedBank(bank: Bank, ds: seq<seq<Variant>>, data0: seq<Record>, questionId0: int)
    returns (data: seq<Record>, questionId: int)
    requires |ds| == |bank.questions|
    requires questionId0 == FIRST_ID - |data0|
    ensures data == EmitQuestions(data0, bank.subject, bank.questions, ds, |ds|)
    ensures questionId == FIRST_ID - |data|
  {
    data, questionId := data0, questionId0;
    for j := 0 to |bank.questions|
      invariant data == EmitQuestions(data0, bank.subject, bank.questions, ds, j)
      invariant questionId == FIRST_ID - |data|
    {
      data, questionId := SeedQuestion(bank.subject, bank.questions[j], ds[j], data, questionId);
    }
  }

  /** The loop over one question's variants: append a record, count the ID down. */
  method SeedQuestion(subject: Subject, question: string, variants: seq<Variant>, data0: seq<Record>, questionId0: int)
    returns (data: seq<Record>, questionId: int)
    requires questionId0 == FIRST_ID - |data0|
    ensures data == EmitVariants(data0, subject, question, variants, |variants|)
    ensures questionId == FIRST_ID - |data|
  {
    data, questionId := data0, questionId0;
    for k := 0 to |variants|
      invariant data == EmitVariants(data0, subject, question, variants, k)
      invariant questionId == FIRST_ID - |data|
    {
      var v := variants[k];
      var row := Record(questionId, question, subject, v.status, v.marks, |v.years|, v.years);
      assert row == SeedRecord(FIRST_ID - |data|, subject, question, variants[k]);
      data := data + [row];
      questionId := questionId - 1;
    }
  }

  // ---------------------------------------------------------------------------
  // What the seeded table holds
  // ---------------------------------------------------------------------------

  /** Appending variants keeps the rows already there. */
  lemma {:induction false} EmitVariantsKeeps(data: seq<Record>, subject: Subject, question: string, vs: seq<Variant>, k: nat, i: nat)
    requires k <= |vs| && i < |data|
    ensures EmitVariants(data, subject, question, vs, k)[i] == data[i]
  {
    if k > 0 {
      EmitVariantsKeeps(data, subject, question, vs, k - 1, i);
    }
  }

  /** The row at position `i` past the old rows is the record of the next variant, numbered FIRST_ID - i. */
  lemma {:induction false} EmitVariantsAdds(data: seq<Record>, subject: Subject, question: string, vs: seq<Variant>, k: nat, i: nat)
    requires k <= |vs| && |data| <= i < |data| + k
    ensures EmitVariants(data, subject, question, vs, k)[i] == SeedRecord(FIRST_ID - i, subject, question, vs[i - |data|])
  {
    if i < |data| + k - 1 {
      EmitVariantsAdds(data, subject, question, vs, k - 1, i);
    }
  }

  /** Rows numbered from Q1100 by position stay so as further variants are emitted. */
  lemma EmitVariantsNumbered(data: seq<Record>, subject: Subject, question: string, vs: seq<Variant>)
    requires NumberedFromFirst(data)
    requires forall k | 0 <= k < |vs| :: YearSample(vs[k].years)
    ensures NumberedFromFirst(EmitVariants(data, subject, question, vs, |vs|))
  {
    var r := EmitVariants(data, subject, question, vs, |vs|);
    forall i | 0 <= i < |r|
      ensures Numbered(r[i], i)
    {
      if i < |data| {
        EmitVariantsKeeps(data, subject, question, vs, |vs|, i);
      } else {
        EmitVariantsAdds(data, subject, question, vs, |vs|, i);
        assert YearSample(vs[i - |data|].years);
      }
    }
  }

  lemma {:induction false} EmitQuestionsNumbered(data: seq<Record>, subject: Subject, qs: seq<string>, ds: seq<seq<Variant>>, j: nat)
    requires |ds| == |qs| && j <= |qs|
    requires NumberedFromFirst(data)
    requires forall m, k | 0 <= m < |ds| && 0 <= k < |ds[m]| :: YearSample(ds[m][k].years)
    ensures NumberedFromFirst(EmitQuestions(data, subject, qs, ds, j))
  {
    if j > 0 {
      EmitQuestionsNumbered(data, subject, qs, ds, j - 1);
      EmitVariantsNumbered(EmitQuestions(data, subject, qs, ds, j - 1), subject, qs[j - 1], ds[j - 1]);
    }
  }

  lemma {:induction false} EmitBanksNumbered(banks: seq<Bank>, draws: seq<seq<seq<Variant>>>, s: nat)
    requires DrawsFit(banks, draws) && s <= |banks|
    ensures NumberedFromFirst(EmitBanks([], banks, draws, s))
  {
    if s > 0 {
      EmitBanksNumbered(banks, draws, s - 1);
      var ds: seq<seq<Variant>> := draws[s - 1];
      assert forall m, k | 0 <= m < |ds| && 0 <= k < |ds[m]| :: YearSample(ds[m][k].years);
      EmitQuestionsNumbered(EmitBanks([], banks, draws, s - 1), banks[s - 1].subject, banks[s - 1].questions, ds, |ds|);
    }
  }

  /**
    The seeded rows are numbered Q1100, Q1099, ... in emission order, and
    every one has Frequency equal to the number of its years, which are 1 to
    5 distinct years between 2018 and 2023.
  */
  lemma SeedRowsNumbered(banks: seq<Bank>, draws: seq<seq<seq<Variant>>>)
    requires DrawsFit(banks, draws)
    ensures forall i | 0 <= i < |SeedRows(banks, draws)| ::
      SeedRows(banks, draws)[i].number == FIRST_ID - i && SeedShaped(SeedRows(banks, draws)[i])
  {
    EmitBanksNumbered(banks, draws, |banks|);
    var r := SeedRows(banks, draws);
    assert forall i | 0 <= i < |r| :: Numbered(r[i], i);
  }

  lemma {:induction false} VariantTotalBounds(ds: seq<seq<Variant>>, j: nat)
    requires j <= |ds|
    requires forall m | 0 <= m < |ds| :: 2 <= |ds[m]| <= 3
    ensures 2 * j <= VariantTotal(ds, j) <= 3 * j
  {
    if j > 0 {
      VariantTotalBounds(ds, j - 1);
    }
  }

  lemma {:induction false} DrawTotalBounds(banks: seq<Bank>, draws: seq<seq<seq<Variant>>>, s: nat)
    requires DrawsFit(banks, draws) && s <= |banks|
    ensures 2 * QuestionCount(banks, s) <= DrawTotal(draws, s) <= 3 * QuestionCount(banks, s)
  {
    if s > 0 {
      DrawTotalBounds(banks, draws, s - 1);
      var ds: seq<seq<Variant>> := draws[s - 1];
      assert forall m | 0 <= m < |ds| :: 2 <= |ds[m]| <= 3;
      VariantTotalBounds(ds, |ds|);
    }
  }

  /** Every canonical question yields two or three records, so the table holds 2N to 3N rows. */
  lemma SeedSize(banks: seq<Bank>, draws: seq<seq<seq<Variant>>>)
    requires DrawsFit(banks, draws)
    ensures 2 * QuestionCount(banks, |banks|) <= |SeedRows(banks, draws)| <= 3 * QuestionCount(banks, |banks|)
  {
    DrawTotalBounds(banks, draws, |banks|);
  }

  // ---------------------------------------------------------------------------
  // How many records each canonical question yields
  // ---------------------------------------------------------------------------

  /** The number of rows of `rows` holding `question` under `subject`. */
  function Occurrences(rows: seq<Record>, subject: Subject, question: string): nat {
    if rows == [] then 0
    else
      var last := rows[|rows| - 1];
      Occurrences(rows[..|rows| - 1], subject, question)
      + (if last.subject == subject && last.question == question then 1 else 0)
  }

  lemma OccurrencesSnoc(rows: seq<Record>, x: Record, s: Subject, q: string)
    ensures Occurrences(rows + [x], s, q) == Occurrences(rows, s, q) + (if x.subject == s && x.question == q then 1 else 0)
  {
    assert (rows + [x])[..|rows|] == rows;
  }

  lemma {:induction false} EmitVariantsOccurrences(data: seq<Record>, subject: Subject, question: string, vs: seq<Variant>, k: nat,
                                                   s: Subject, q: string)
    requires k <= |vs|
    ensures Occurrences(EmitVariants(data, subject, question, vs, k), s, q)
      == Occurrences(data, s, q) + (if s == subject && q == question then k else 0)
  {
    if k > 0 {
      EmitVariantsOccurrences(data, subject, question, vs, k - 1, s, q);
      var before := EmitVariants(data, subject, question, vs, k - 1);
      var x := SeedRecord(FIRST_ID - |before|, subject, question, vs[k - 1]);
      assert EmitVariants(data, subject, question, vs, k) == before + [x];
      assert x.subject == subject && x.question == question;
      OccurrencesSnoc(before, x, s, q);
    }
  }

  /** Questions `lo` to `j` - 1 of a bank add no rows holding `q` under `s` when none of them is `q` under `s`. */
  lemma {:induction false} OtherQuestionsOccurrences(data: seq<Record>, subject: Subject, qs: seq<string>, ds: seq<seq<Variant>>,
                                                     lo: nat, j: nat, s: Subject, q: string)
    requires |ds| == |qs| && lo <= j <= |qs|
    requires forall a | lo <= a < j :: s != subject || qs[a] != q
    ensures Occurrences(EmitQuestions(data, subject, qs, ds, j), s, q) == Occurrences(EmitQuestions(data, subject, qs, ds, lo), s, q)
    decreases j
  {
    if lo < j {
      OtherQuestionsOccurrences(data, subject, qs, ds, lo, j - 1, s, q);
      EmitVariantsOccurrences(EmitQuestions(data, subject, qs, ds, j - 1), subject, qs[j - 1], ds[j - 1], |ds[j - 1]|, s, q);
    }
  }

  /** In a bank where only question `m` is `q`, `q` occurs once per variant drawn for question `m`. */
  lemma EmitQuestionsOccurrences(data: seq<Record>, subject: Subject, qs: seq<string>, ds: seq<seq<Variant>>, m: nat, q: string)
    requires |ds| == |qs| && m < |qs|
    requires qs[m] == q && forall a | 0 <= a < |qs| && a != m :: qs[a] != q
    ensures Occurrences(EmitQuestions(data, subject, qs, ds, |qs|), subject, q) == Occurrences(data, subject, q) + |ds[m]|
  {
    OtherQuestionsOccurrences(data, subject, qs, ds, 0, m, subject, q);
    EmitVariantsOccurrences(EmitQuestions(data, subject, qs, ds, m), subject, q, ds[m], |ds[m]|, subject, q);
    OtherQuestionsOccurrences(data, subject, qs, ds, m + 1, |qs|, subject, q);
  }

  /** The banks of a catalog name distinct subjects, and each lists distinct questions. */
  predicate DistinctCatalog(banks: seq<Bank>) {
    (forall a, b | 0 <= a < b < |banks| :: banks[a].subject != banks[b].subject)
    && forall t, a, b | 0 <= t < |banks| && 0 <= a < b < |banks[t].questions| ::
         banks[t].questions[a] != banks[t].questions[b]
  }

  /** Banks `lo` to `s` - 1 add no rows under `subject` when none of them is that subject's bank. */
  lemma {:induction false} OtherBanksOccurrences(banks: seq<Bank>, draws: seq<seq<seq<Variant>>>, lo: nat, s: nat,
                                                 subject: Subject, q: string)
    requires DrawsShape(banks, draws) && lo <= s <= |banks|
    requires forall u | lo <= u < s :: banks[u].subject != subject
    ensures Occurrences(EmitBanks([], banks, draws, s), subject, q) == Occurrences(EmitBanks([], banks, draws, lo), subject, q)
    decreases s
  {
    if lo < s {
      OtherBanksOccurrences(banks, draws, lo, s - 1, subject, q);
      var u := s - 1;
      OtherQuestionsOccurrences(EmitBanks([], banks, draws, u), banks[u].subject, banks[u].questions, draws[u], 0, |draws[u]|, subject, q);
    }
  }

  /** Question `m` of bank `t` occurs in the seeded rows once per variant drawn for it. */
  lemma SeededOccurrences(banks: seq<Bank>, draws: seq<seq<seq<Variant>>>, t: nat, m: nat)
    requires DrawsShape(banks, draws)
    requires t < |banks| && m < |banks[t].questions|
    requires forall u | 0 <= u < |banks| && u != t :: banks[u].subject != banks[t].subject
    requires forall a | 0 <= a < |banks[t].questions| && a != m :: banks[t].questions[a] != banks[t].questions[m]
    ensures Occurrences(SeedRows(banks, draws), banks[t].subject, banks[t].questions[m]) == |draws[t][m]|
  {
    var subject, question := banks[t].subject, banks[t].questions[m];
    OtherBanksOccurrences(banks, draws, 0, t, subject, question);
    EmitQuestionsOccurrences(EmitBanks([], banks, draws, t), subject, banks[t].questions, draws[t], m, question);
    OtherBanksOccurrences(banks, draws, t + 1, |banks|, subject, question);
  }

  /**
    In a catalog of distinct subjects and questions, question `m` of bank `t`
    occurs in the seeded table once per variant drawn for it: two or three times.
  */
  lemma QuestionYield(banks: seq<Bank>, draws: seq<seq<seq<Variant>>>, t: nat, m: nat)
    requires DrawsFit(banks, draws) && DistinctCatalog(banks)
    requires t < |banks| && m < |banks[t].questions|
    ensures Occurrences(SeedRows(banks, draws), banks[t].subject, banks[t].questions[m]) == |draws[t][m]|
    ensures 2 <= Occurrences(SeedRows(banks, draws), banks[t].subject, banks[t].questions[m]) <= 3
  {
    var qs := banks[t].questions;
    forall u | 0 <= u < |banks| && u != t
      ensures banks[u].subject != banks[t].subject
    {
      if u < t {
        assert banks[u].subject != banks[t].subject;
      }
    }
    forall a | 0 <= a < |qs| && a != m
      ensures qs[a] != qs[m]
    {
      if a < m {
        assert qs[a] != qs[m];
      }
    }
    SeededOccurrences(banks, draws, t, m);
  }
}
