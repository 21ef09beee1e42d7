/**
 * The dashboard's completed-versus-total figures over the rows of `line_items`
 * (`total_pence` and `status`), and the percentage its donut charts show.
 */
module Dashboard {
  import opened Wrappers
  import opened JsMath

  /** One fetched row; `totalPence` is `None` where the column is null. */
  datatype LedgerRow = LedgerRow(totalPence: Option<int>, status: string)

  datatype Totals = Totals(totalPence: int, completedPence: int, countAll: nat, countCompleted: nat)

  const CompletedStatus: string := "Completed"

  /** `r.total_pence || 0`. */
  function PenceOf(r: LedgerRow): int {
    r.totalPence.GetOr(0)
  }

  /**
   * `rows.reduce((s, r) => s + (r.total_pence || 0), 0)`: a null counts as 0, so rows
   * with no non-negative total give a non-negative sum.
   */
  function SumPence(rows: seq<LedgerRow>): (sum: int)
    ensures (forall k :: 0 <= k < |rows| ==> PenceOf(rows[k]) >= 0) ==> sum >= 0
    ensures (forall k :: 0 <= k < |rows| ==> rows[k].totalPence.None?) ==> sum == 0
  {
    if |rows| == 0 then 0 else SumPence(rows[..|rows| - 1]) + PenceOf(rows[|rows| - 1])
  }

  /** `rows.filter(r => r.status === 'Completed')`: the completed rows, in order. */
  function CompletedRows(rows: seq<LedgerRow>): (c: seq<LedgerRow>)
    ensures |c| <= |rows|
    ensures forall r :: r in c ==> r in rows && r.status == CompletedStatus
    ensures forall r :: r in rows && r.status == CompletedStatus ==> r in c
    ensures forall r :: multiset(c)[r] == if r.status == CompletedStatus then multiset(rows)[r] else 0
  {
    if |rows| == 0 then []
    else
      var init := rows[..|rows| - 1];
      var last := rows[|rows| - 1];
      assert rows == init + [last];
      assert multiset(rows) == multiset(init) + multiset{last};
      CompletedRows(init) + if last.status == CompletedStatus then [last] else []
  }

  /** The rows whose status is anything else. */
  function OpenRows(rows: seq<LedgerRow>): seq<LedgerRow> {
    if |rows| == 0 then []
    else
      var last := rows[|rows| - 1];
      OpenRows(rows[..|rows| - 1]) + if last.status == CompletedStatus then [] else [last]
  }

  /** The figures the effect hands to `setT`. */
  function ComputeTotals(rows: seq<LedgerRow>): (t: Totals)
    ensures t.countAll == |rows|
    ensures t.countCompleted <= t.countAll
  {
    var completed := CompletedRows(rows);
    Totals(SumPence(rows), SumPence(completed), |rows|, |completed|)
  }

  /** A sum over a concatenation is the sum of the sums. */
  lemma {:induction false} SumPenceAppend(a: seq<LedgerRow>, b: seq<LedgerRow>)
    ensures SumPence(a + b) == SumPence(a) + SumPence(b)
    decreases |b|
  {
    if |b| == 0 {
      assert a + b == a;
    } else {
      var b' := b[..|b| - 1];
      assert (a + b)[..|a + b| - 1] == a + b';
      assert (a + b)[|a + b| - 1] == b[|b| - 1];
      SumPenceAppend(a, b');
    }
  }

  /**
   * The total splits into the completed rows' pence and the other rows' pence, and
   * the completed and other rows together are all the rows.
   */
  lemma {:induction false} TotalSplits(rows: seq<LedgerRow>)
    ensures SumPence(rows) == SumPence(CompletedRows(rows)) + SumPence(OpenRows(rows))
    ensures |CompletedRows(rows)| + |OpenRows(rows)| == |rows|
  {
    if |rows| > 0 {
      var init := rows[..|rows| - 1];
      var last := rows[|rows| - 1];
      TotalSplits(init);
      assert SumPence(rows) == SumPence(init) + PenceOf(last);
      if last.status == CompletedStatus {
        assert CompletedRows(rows) == CompletedRows(init) + [last];
        assert OpenRows(rows) == OpenRows(init);
        SumPenceAppend(CompletedRows(init), [last]);
        assert SumPence([last]) == PenceOf(last) by {
          assert [last][..0] == [];
        }
      } else {
        assert CompletedRows(rows) == CompletedRows(init);
        assert OpenRows(rows) == OpenRows(init) + [last];
        SumPenceAppend(OpenRows(init), [last]);
        assert SumPence([last]) == PenceOf(last) by {
          assert [last][..0] == [];
        }
      }
    }
  }

  /** With no negative totals, completed pence never exceed total pence. */
  lemma CompletedWithinTotal(rows: seq<LedgerRow>)
    requires forall k :: 0 <= k < |rows| ==> PenceOf(rows[k]) >= 0
    ensures 0 <= ComputeTotals(rows).completedPence <= ComputeTotals(rows).totalPence
  {
    TotalSplits(rows);
    var open := OpenRows(rows);
    OpenRowsAreRows(rows);
    var done := CompletedRows(rows);
    forall k | 0 <= k < |done| ensures PenceOf(done[k]) >= 0 {
      assert done[k] in rows;
    }
  }

  lemma {:induction false} OpenRowsAreRows(rows: seq<LedgerRow>)
    ensures forall r :: r in OpenRows(rows) ==> r in rows && r.status != CompletedStatus
  {
    if |rows| > 0 {
      OpenRowsAreRows(rows[..|rows| - 1]);
    }
  }

  /** `total > 0 ? Math.round((value / total) * 100) : 0`. */
  function Percent(value: int, total: int): (pct: int)
    ensures total <= 0 ==> pct == 0
  {
    if total > 0 then Round(value as real / total as real * 100.0) else 0
  }

  /** A part of a positive whole is between 0 and 100 per cent of it. */
  lemma PercentInRange(value: int, total: int)
    requires 0 <= value <= total
    ensures 0 <= Percent(value, total) <= 100
  {
    if total > 0 {
      var q := value as real / total as real;
      assert 0.0 <= q <= 1.0 by {
        assert q * total as real == value as real;
      }
      RoundMonotone(0.0, q * 100.0);
      RoundMonotone(q * 100.0, 100.0);
      RoundUnique(0.0, 0);
      RoundUnique(100.0, 100);
    }
  }

  /** The whole is 100 per cent of itself. */
  lemma PercentOfWhole(total: int)
    requires total > 0
    ensures Percent(total, total) == 100
  {
    assert total as real / total as real == 1.0;
    RoundUnique(100.0, 100);
  }
}
