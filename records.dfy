/**
  One row of the question table and the two orders the table is sorted in:
  by Subject ascending then Frequency descending (every re-sort of the whole
  table), and by Frequency descending alone (the single-subject view).
  pandas does not promise an order among ties, so a sort is specified only
  as "sorted, and a permutation of its input"; `SortRows` is one function
  meeting that specification.
*/
module Records {
  import Ids

  datatype Subject = Mathematics | Physics | Chemistry | Biology
  {
    /** The text the table stores in its Subject column. */
    function Name(): string {
      match this
      case Mathematics => "Mathematics"
      case Physics => "Physics"
      case Chemistry => "Chemistry"
      case Biology => "Biology"
    }

    /** Position of the subject when its name is sorted ascending. */
    function Rank(): nat {
      match this
      case Biology => 0
      case Chemistry => 1
      case Mathematics => 2
      case Physics => 3
    }
  }

  datatype Status = Verified | Pending | Featured

  /** The three mark values 2.5, 5 and 10; no arithmetic is done on them. */
  datatype Marks = TwoAndAHalf | Five | Ten

  /**
    One row. The ID column always holds f"Q{n}" for the question number
    `n` (both where rows are seeded and where they are submitted), so the row
    keeps the number and `Id()` renders the text the table shows and compares.
  */
  datatype Record = Record(
    number: int,
    question: string,
    subject: Subject,
    status: Status,
    marks: Marks,
    frequency: int,
    years: seq<int>)
  {
    /** The text of the ID column. */
    function Id(): string {
      Ids.IdOf(number)
    }
  }

  /** The table's standing rule: Frequency is the number of years listed. */
  predicate Consistent(r: Record) {
    r.frequency == |r.years|
  }

  /** The ID column of a table, in row order. */
  function IdList(rows: seq<Record>): (ids: seq<string>)
    ensures |ids| == |rows|
    ensures forall i | 0 <= i < |rows| :: ids[i] == Ids.IdOf(rows[i].number)
  {
    seq(|rows|, i requires 0 <= i < |rows| => rows[i].Id())
  }

  /** The ID f"Q{n}" is in the ID column exactly when some row is numbered `n`. */
  lemma IdListMembers(rows: seq<Record>, n: int)
    ensures Ids.IdOf(n) in IdList(rows) <==> exists r | r in rows :: r.number == n
  {
    var ids := IdList(rows);
    if Ids.IdOf(n) in ids {
      var k :| 0 <= k < |ids| && ids[k] == Ids.IdOf(n);
      Ids.IdInjective(rows[k].number, n);
      assert rows[k] in rows;
    }
    if exists r | r in rows :: r.number == n {
      var r :| r in rows && r.number == n;
      var k :| 0 <= k < |rows| && rows[k] == r;
      assert ids[k] == Ids.IdOf(n);
    }
  }

  lemma IdListAppend(a: seq<Record>, b: seq<Record>)
    ensures IdList(a + b) == IdList(a) + IdList(b)
  {
  }

  /** Reordering the rows reorders the ID column the same way: the same IDs, each as often. */
  lemma {:induction false} IdListPermutation(a: seq<Record>, b: seq<Record>)
    requires multiset(a) == multiset(b)
    ensures multiset(IdList(a)) == multiset(IdList(b))
    decreases |a|
  {
    if a != [] {
      var k := Find(a, b);
      var before, after := b[..k], b[k + 1..];
      RemoveOne(a, b, k);
      IdListPermutation(a[1..], before + after);
      IdListSplit(a[1..], before, after, a[0], a, b);
    }
  }

  lemma Find(a: seq<Record>, b: seq<Record>) returns (k: nat)
    requires multiset(a) == multiset(b) && a != []
    ensures k < |b| && b[k] == a[0]
  {
    assert a[0] in multiset(b);
    k :| 0 <= k < |b| && b[k] == a[0];
  }

  /** Taking the first row of `a` and its copy at `k` in `b` leaves two permutations of each other. */
  lemma RemoveOne(a: seq<Record>, b: seq<Record>, k: nat)
    requires multiset(a) == multiset(b) && a != [] && k < |b| && b[k] == a[0]
    ensures multiset(a[1..]) == multiset(b[..k] + b[k + 1..])
    ensures a == [a[0]] + a[1..] && b == b[..k] + [a[0]] + b[k + 1..]
  {
    assert a == [a[0]] + a[1..];
    assert b == b[..k] + [b[k]] + b[k + 1..];
    var rest := b[..k] + b[k + 1..];
    assert multiset(b) == multiset(rest) + multiset{a[0]};
    assert multiset(a) == multiset(a[1..]) + multiset{a[0]};
    assert multiset(a[1..]) == multiset(a) - multiset{a[0]};
  }

  lemma IdListSplit(tail: seq<Record>, before: seq<Record>, after: seq<Record>, x: Record, a: seq<Record>, b: seq<Record>)
    requires a == [x] + tail && b == before + [x] + after
    requires multiset(IdList(tail)) == multiset(IdList(before + after))
    ensures multiset(IdList(a)) == multiset(IdList(b))
  {
    IdListAppend([x], tail);
    IdListAppend(before + [x], after);
    IdListAppend(before, [x]);
    IdListAppend(before, after);
  }

  /** Ordering subjects by Rank is ordering them by name as Python orders strings. */
  lemma RankIsNameOrder(a: Subject, b: Subject)
    ensures a.Rank() < b.Rank() <==> Ids.Below(a.Name(), b.Name())
  {
    if a == b {
      Ids.BelowIrreflexive(a.Name());
    } else {
      var x, y := a.Name(), b.Name();
      assert |x| > 0 && |y| > 0;
      assert x[0] == ['B', 'C', 'M', 'P'][a.Rank()];
      assert y[0] == ['B', 'C', 'M', 'P'][b.Rank()];
      assert Ids.Below(x, y) <==> x[0] < y[0];
    }
  }

  // ---------------------------------------------------------------------------
  // Sort orders
  // ---------------------------------------------------------------------------

  datatype SortKey =
    | SubjectThenFrequency   // sort_values(by=['Subject', 'Frequency'], ascending=[True, False])
    | FrequencyOnly          // sort_values('Frequency', ascending=False)

  /** `a` may stand before `b` in a table sorted by `key`. */
  predicate Precedes(key: SortKey, a: Record, b: Record) {
    match key
    case SubjectThenFrequency =>
      a.subject.Rank() < b.subject.Rank()
      || (a.subject.Rank() == b.subject.Rank() && a.frequency >= b.frequency)
    case FrequencyOnly => a.frequency >= b.frequency
  }

  predicate Sorted(key: SortKey, rows: seq<Record>) {
    forall i, j | 0 <= i < j < |rows| :: Precedes(key, rows[i], rows[j])
  }

  /** `x` placed into a sorted table, before the first row it may precede. */
  function Place(key: SortKey, x: Record, rows: seq<Record>): (r: seq<Record>)
    requires Sorted(key, rows)
    ensures Sorted(key, r)
    ensures multiset(r) == multiset(rows) + multiset{x}
  {
    if rows == [] then [x]
    else if Precedes(key, x, rows[0]) then [x] + rows
    else
      var tail := Place(key, x, rows[1..]);
      PlaceHead(key, x, rows, tail);
      assert rows == [rows[0]] + rows[1..];
      [rows[0]] + tail
  }

  lemma PlaceHead(key: SortKey, x: Record, rows: seq<Record>, tail: seq<Record>)
    requires rows != [] && Sorted(key, rows) && !Precedes(key, x, rows[0])
    requires Sorted(key, tail) && multiset(tail) == multiset(rows[1..]) + multiset{x}
    ensures Sorted(key, [rows[0]] + tail)
  {
    var r := [rows[0]] + tail;
    forall j | 1 <= j < |r|
      ensures Precedes(key, rows[0], r[j])
    {
      assert r[j] == tail[j - 1];
      assert r[j] in multiset(tail);
      if r[j] != x {
        assert r[j] in rows[1..];
        var k :| 0 <= k < |rows[1..]| && rows[1..][k] == r[j];
        assert rows[k + 1] == r[j];
      }
    }
  }

  /** A table sorted by `key` holding exactly the rows of `rows`. */
  function SortRows(key: SortKey, rows: seq<Record>): (r: seq<Record>)
    ensures Sorted(key, r)
    ensures multiset(r) == multiset(rows)
  {
    if rows == [] then []
    else
      assert rows == [rows[0]] + rows[1..];
      Place(key, rows[0], SortRows(key, rows[1..]))
  }

  /** A permutation has the same length. */
  lemma PermutationLength(a: seq<Record>, b: seq<Record>)
    requires multiset(a) == multiset(b)
    ensures |a| == |b|
  {
    assert |multiset(a)| == |a| && |multiset(b)| == |b|;
  }

  /** Every row of a table that is a permutation of consistent rows is consistent. */
  lemma PermutationConsistent(a: seq<Record>, b: seq<Record>)
    requires multiset(a) == multiset(b)
    requires forall r | r in b :: Consistent(r)
    ensures forall r | r in a :: Consistent(r)
  {
    forall r | r in a
      ensures Consistent(r)
    {
      assert r in multiset(a);
    }
  }
}
