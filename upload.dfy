/**
 * The Schedule-of-Works upload pass of `handleUpload`: every spreadsheet row becomes a
 * draft line item with a category, a default assignee, amounts in pence and a review flag.
 */
module Upload {
  import opened Wrappers
  import opened JsText
  import opened JsMath
  import opened Money
  import opened Classifier

  /**
   * One parsed spreadsheet row. A text cell that is missing reads as "" (the parser's
   * default value); a numeric cell that is missing or blank is `None`.
   */
  datatype SheetRow = SheetRow(
    code: string,
    description: string,
    baseRate: Option<real>,
    contractRate: Option<real>,
    unit: string,
    qty: Option<real>,
    total: Option<real>,
    location: string,
    comments: string)

  /** `contractRateCheck`'s result: the fixed carpet price, or the expected uplifted rate. */
  datatype RateCheck =
    | FixedRate(valid: bool, fixedRate: real)
    | Uplift(valid: bool, expected: real)

  datatype Status = Unassigned | Assigned | Started | Completed

  /** One entry of `toInsert`. */
  datatype Draft = Draft(
    code: string,
    description: string,
    baseRatePence: int,
    contractRatePence: int,
    unit: string,
    qty: real,
    totalPence: int,
    location: string,
    comments: string,
    category: string,
    assigneeName: string,
    status: Status,
    rowIndex: nat,
    needsReview: bool)

  /**
   * What the pass reads besides the rows: the rules, the regional defaults keyed by
   * "category|region", and the regions of the property form and of the active job
   * ("" when absent).
   */
  datatype UploadContext = UploadContext(
    rules: seq<Rule>,
    defaults: map<string, string>,
    formRegion: string,
    jobRegion: string)

  const CarpetCode: string := "NONSOR"
  const CarpetDescription: string := "CARPET:RENEW TO DOMESTIC AREAS"
  /** The fixed unit price of the carpet item, in pounds. */
  const CarpetRate: real := 32.1
  /** The mandated markup of the contract rate over the base rate. */
  const UpliftFactor: real := 1.15
  const Tolerance: real := 0.01

  /** `Number(x || 0)`: a missing or zero cell reads as 0. */
  function OrZero(x: Option<real>): real {
    x.GetOr(0.0)
  }

  predicate IsCarpet(code: string, description: string) {
    code == CarpetCode && description == CarpetDescription
  }

  /** `contractRateCheck(base, contract, code, description)`. */
  function ContractRateCheck(base: real, contract: real, code: string, description: string): (check: RateCheck)
    ensures check.FixedRate? <==> IsCarpet(code, description)
    ensures check.FixedRate? ==> check.fixedRate == CarpetRate
    ensures check.Uplift? ==> check.expected == base * UpliftFactor
    ensures check.valid <==>
      Abs(contract - (if IsCarpet(code, description) then CarpetRate else base * UpliftFactor)) < Tolerance
  {
    if IsCarpet(code, description) then
      FixedRate(Abs(contract - CarpetRate) < Tolerance, CarpetRate)
    else
      var expected := base * UpliftFactor;
      Uplift(Abs(contract - expected) < Tolerance, expected)
  }

  /** `property?.region || activeJob?.region || ''`. */
  function Region(ctx: UploadContext): string {
    if ctx.formRegion != "" then ctx.formRegion else ctx.jobRegion
  }

  /** `defaults[`${category}|${region}`] || ''`. */
  function DefaultAssignee(category: string, ctx: UploadContext): string {
    var key := category + "|" + Region(ctx);
    if key in ctx.defaults then ctx.defaults[key] else ""
  }

  /** `Number(r.TOTAL || contract * qty)`: the TOTAL cell unless it is missing or zero. */
  function SheetTotal(row: SheetRow): real {
    if OrZero(row.total) != 0.0 then OrZero(row.total) else OrZero(row.contractRate) * OrZero(row.qty)
  }

  /** `check.fixedRate ?? contract`: the unit price the draft records. */
  function UnitPrice(check: RateCheck, contract: real): real {
    if check.FixedRate? then check.fixedRate else contract
  }

  /** `check.fixedRate ? check.fixedRate * qty : total`: the line total the draft records. */
  function LineTotal(check: RateCheck, qty: real, total: real): real {
    if check.FixedRate? then check.fixedRate * qty else total
  }

  /**
   * The body of the `rows.forEach` callback: `None` where it returns early, otherwise
   * the draft of row `idx`, Assigned exactly when it has a default assignee.
   */
  function DraftFor(row: SheetRow, idx: nat, ctx: UploadContext): (r: Option<Draft>)
    ensures r.None? <==> Trim(row.code) == "" && Trim(row.description) == ""
    ensures r.Some? ==> r.value.rowIndex == idx
    ensures r.Some? ==> (r.value.status == Assigned <==> r.value.assigneeName != "")
  {
    var code := Trim(row.code);
    var description := Trim(row.description);
    if code == "" && description == "" then None
    else
      var base := OrZero(row.baseRate);
      var contract := OrZero(row.contractRate);
      var qty := OrZero(row.qty);
      var total := SheetTotal(row);
      var c := Classify(row.code, row.description, ctx.rules);
      var check := ContractRateCheck(base, contract, code, description);
      var assignee := DefaultAssignee(c.category, ctx);
      Some(Draft(
        code := code,
        description := description,
        baseRatePence := ToPence(base),
        contractRatePence := ToPence(UnitPrice(check, contract)),
        unit := row.unit,
        qty := qty,
        totalPence := ToPence(LineTotal(check, qty, total)),
        location := Trim(row.location),
        comments := Trim(row.comments),
        category := c.category,
        assigneeName := assignee,
        status := if assignee != "" then Assigned else Unassigned,
        rowIndex := idx,
        needsReview := c.needsReview || !check.valid))
  }

  /** The callback's result for every row, in row order. */
  function RowResults(rows: seq<SheetRow>, ctx: UploadContext): seq<Option<Draft>> {
    seq(|rows|, i requires 0 <= i < |rows| => DraftFor(rows[i], i, ctx))
  }

  /** What `toInsert` holds once the callback has produced `results`: the drafts, in order. */
  function Emitted(results: seq<Option<Draft>>): seq<Draft> {
    if |results| == 0 then []
    else
      var last := |results| - 1;
      Emitted(results[..last]) + match results[last] {
        case Some(d) => [d]
        case None => []
      }
  }

  /** No more drafts than results, and none when every result is `None`. */
  lemma {:induction false} EmittedBound(results: seq<Option<Draft>>)
    ensures |Emitted(results)| <= |results|
    ensures (forall i :: 0 <= i < |results| ==> results[i].None?) ==> Emitted(results) == []
  {
    if |results| > 0 {
      var last := |results| - 1;
      EmittedBound(results[..last]);
    }
  }

  /**
   * The drafts the pass emits for `rows` (a filter-map over the rows): at most one per
   * row, and none at all when every row is blank.
   */
  function Drafts(rows: seq<SheetRow>, ctx: UploadContext): (ds: seq<Draft>)
    ensures |ds| <= |rows|
    ensures (forall i :: 0 <= i < |rows| ==> Trim(rows[i].code) == "" && Trim(rows[i].description) == "") ==> ds == []
  {
    EmittedBound(RowResults(rows, ctx));
    Emitted(RowResults(rows, ctx))
  }

  /** One callback result more: `toInsert` grows by that result's draft, if any. */
  lemma EmittedSnoc(results: seq<Option<Draft>>, i: nat)
    requires i < |results|
    ensures Emitted(results[..i + 1]) ==
      Emitted(results[..i]) + if results[i].Some? then [results[i].value] else []
  {
    assert results[..i + 1][..i] == results[..i];
  }

  /** The `rows.forEach` loop that fills `toInsert`. */
  method BuildDrafts(rows: seq<SheetRow>, ctx: UploadContext) returns (toInsert: seq<Draft>)
    ensures toInsert == Drafts(rows, ctx)
  {
    ghost var results := RowResults(rows, ctx);
    toInsert := [];
    var idx := 0;
    while idx < |rows|
      invariant 0 <= idx <= |rows|
      invariant toInsert == Emitted(results[..idx])
    {
      var d := DraftFor(rows[idx], idx, ctx);
      EmittedSnoc(results, idx);
      if d.Some? {
        toInsert := toInsert + [d.value];
      }
      idx := idx + 1;
    }
    assert results[..|rows|] == results;
  }

  // ---------- One row ----------

  /** A row is skipped exactly when its CODE and DESCRIPTION cells hold nothing but whitespace. */
  lemma BlankRowSkipped(row: SheetRow, idx: nat, ctx: UploadContext)
    ensures DraftFor(row, idx, ctx).None? <==>
      && (forall k :: 0 <= k < |row.code| ==> IsSpace(row.code[k]))
      && (forall k :: 0 <= k < |row.description| ==> IsSpace(row.description[k]))
  {
    TrimEmptyIff(row.code);
    TrimEmptyIff(row.description);
  }

  /**
   * An emitted draft carries the row's trimmed texts, its untrimmed unit, its quantity,
   * its position, the base rate in pence and the classifier's category.
   */
  lemma DraftOfRow(row: SheetRow, idx: nat, ctx: UploadContext)
    requires Trim(row.code) != "" || Trim(row.description) != ""
    ensures DraftFor(row, idx, ctx).Some?
    ensures var d := DraftFor(row, idx, ctx).value;
      && d.code == Trim(row.code) && d.description == Trim(row.description)
      && d.location == Trim(row.location) && d.comments == Trim(row.comments)
      && d.unit == row.unit && d.qty == OrZero(row.qty) && d.rowIndex == idx
      && d.baseRatePence == ToPence(OrZero(row.baseRate))
      && d.category == Classify(row.code, row.description, ctx.rules).category
  {
  }

  /** An emitted draft prices the row by its rate check. */
  lemma DraftPricing(row: SheetRow, idx: nat, ctx: UploadContext)
    requires Trim(row.code) != "" || Trim(row.description) != ""
    ensures DraftFor(row, idx, ctx).Some?
    ensures var check := ContractRateCheck(OrZero(row.baseRate), OrZero(row.contractRate), Trim(row.code), Trim(row.description));
      && DraftFor(row, idx, ctx).value.contractRatePence == ToPence(UnitPrice(check, OrZero(row.contractRate)))
      && DraftFor(row, idx, ctx).value.totalPence == ToPence(LineTotal(check, OrZero(row.qty), SheetTotal(row)))
  {
  }

  /**
   * The carpet item is priced at the fixed 32.10 whatever its contract rate and TOTAL
   * cells say: 3210 pence per unit and a total of 32.10 times the quantity.
   */
  lemma CarpetRowPricing(row: SheetRow, idx: nat, ctx: UploadContext)
    requires IsCarpet(Trim(row.code), Trim(row.description))
    ensures DraftFor(row, idx, ctx).Some?
    ensures DraftFor(row, idx, ctx).value.contractRatePence == 3210
    ensures DraftFor(row, idx, ctx).value.totalPence == ToPence(CarpetRate * OrZero(row.qty))
  {
    assert Trim(row.code) != "";
    var contract, qty := OrZero(row.contractRate), OrZero(row.qty);
    var check := ContractRateCheck(OrZero(row.baseRate), contract, Trim(row.code), Trim(row.description));
    assert UnitPrice(check, contract) == CarpetRate;
    assert LineTotal(check, qty, SheetTotal(row)) == CarpetRate * qty;
    DraftPricing(row, idx, ctx);
    RoundUnique(CarpetRate * 100.0, 3210);
  }

  /** Any row other than the carpet item keeps its own contract rate. */
  lemma UpliftRowRate(row: SheetRow, idx: nat, ctx: UploadContext)
    requires Trim(row.code) != "" || Trim(row.description) != ""
    requires !IsCarpet(Trim(row.code), Trim(row.description))
    ensures DraftFor(row, idx, ctx).Some?
    ensures DraftFor(row, idx, ctx).value.contractRatePence == ToPence(OrZero(row.contractRate))
  {
    DraftPricing(row, idx, ctx);
  }

  /**
   * Any row other than the carpet item totals to its TOTAL cell when that is present
   * and non-zero, and to the contract rate times the quantity otherwise.
   */
  lemma UpliftRowTotal(row: SheetRow, idx: nat, ctx: UploadContext)
    requires Trim(row.code) != "" || Trim(row.description) != ""
    requires !IsCarpet(Trim(row.code), Trim(row.description))
    ensures DraftFor(row, idx, ctx).Some?
    ensures row.total.Some? && row.total.value != 0.0 ==>
      DraftFor(row, idx, ctx).value.totalPence == ToPence(row.total.value)
    ensures !(row.total.Some? && row.total.value != 0.0) ==>
      DraftFor(row, idx, ctx).value.totalPence == ToPence(OrZero(row.contractRate) * OrZero(row.qty))
  {
    DraftPricing(row, idx, ctx);
    SheetTotalCases(row);
  }

  lemma SheetTotalCases(row: SheetRow)
    ensures row.total.Some? && row.total.value != 0.0 ==> SheetTotal(row) == row.total.value
    ensures !(row.total.Some? && row.total.value != 0.0) ==>
      SheetTotal(row) == OrZero(row.contractRate) * OrZero(row.qty)
  {
  }

  /** The contract rate a row should carry: the carpet price, or the base rate plus 15%. */
  function ExpectedContractRate(row: SheetRow): real {
    if IsCarpet(Trim(row.code), Trim(row.description)) then CarpetRate
    else OrZero(row.baseRate) * UpliftFactor
  }

  /** The draft's flag joins the classifier's flag and the rate check. */
  lemma DraftReviewFlag(row: SheetRow, idx: nat, ctx: UploadContext)
    requires Trim(row.code) != "" || Trim(row.description) != ""
    ensures DraftFor(row, idx, ctx).Some?
    ensures DraftFor(row, idx, ctx).value.needsReview ==
      (Classify(row.code, row.description, ctx.rules).needsReview
       || !ContractRateCheck(OrZero(row.baseRate), OrZero(row.contractRate), Trim(row.code), Trim(row.description)).valid)
  {
  }

  /**
   * A draft needs review exactly when no rule classifies it or its contract rate is a
   * penny or more away from the expected rate.
   */
  lemma NeedsReviewIff(row: SheetRow, idx: nat, ctx: UploadContext)
    requires Trim(row.code) != "" || Trim(row.description) != ""
    ensures DraftFor(row, idx, ctx).Some?
    ensures DraftFor(row, idx, ctx).value.needsReview <==>
      || Unclaimed(ctx.rules, Trim(row.code), Lower(Trim(row.description)))
      || Abs(OrZero(row.contractRate) - ExpectedContractRate(row)) >= Tolerance
  {
    DraftReviewFlag(row, idx, ctx);
    ClassifyNeedsReviewIff(row.code, row.description, ctx.rules);
  }

  /**
   * The default assignee is the contractor registered for "category|region", the region
   * coming from the property form, else the active job; the draft is Assigned exactly
   * when that name is non-empty, and Unassigned otherwise.
   */
  lemma AssigneeDefault(row: SheetRow, idx: nat, ctx: UploadContext)
    requires Trim(row.code) != "" || Trim(row.description) != ""
    ensures DraftFor(row, idx, ctx).Some?
    ensures var d := DraftFor(row, idx, ctx).value;
      var key := d.category + "|" + (if ctx.formRegion != "" then ctx.formRegion else ctx.jobRegion);
      && d.assigneeName == (if key in ctx.defaults then ctx.defaults[key] else "")
      && (d.status == Assigned <==> d.assigneeName != "")
      && (d.status == Unassigned <==> d.assigneeName == "")
  {
  }

  // ---------- The whole pass ----------

  /** The positions of the results that produced a draft, in increasing order. */
  function EmittedPositions(results: seq<Option<Draft>>): seq<nat> {
    if |results| == 0 then []
    else
      var last := |results| - 1;
      EmittedPositions(results[..last]) + if results[last].Some? then [last] else []
  }

  /**
   * The k-th emitted draft is the one produced at the k-th emitting position; the
   * positions strictly increase, and every result that produced a draft has one.
   */
  lemma {:induction false} EmittedAt(results: seq<Option<Draft>>)
    ensures |EmittedPositions(results)| == |Emitted(results)| <= |results|
    ensures forall k :: 0 <= k < |Emitted(results)| ==>
      EmittedPositions(results)[k] < |results| && results[EmittedPositions(results)[k]] == Some(Emitted(results)[k])
    ensures forall k1, k2 :: 0 <= k1 < k2 < |Emitted(results)| ==>
      EmittedPositions(results)[k1] < EmittedPositions(results)[k2]
    ensures forall i :: 0 <= i < |results| && results[i].Some? ==> i in EmittedPositions(results)
  {
    if |results| > 0 {
      var last := |results| - 1;
      var init := results[..last];
      EmittedAt(init);
      var e, p := Emitted(results), EmittedPositions(results);
      var ei, pi := Emitted(init), EmittedPositions(init);
      assert e == ei + (if results[last].Some? then [results[last].value] else []);
      assert p == pi + (if results[last].Some? then [last] else []);
      forall k | 0 <= k < |e|
        ensures p[k] < |results| && results[p[k]] == Some(e[k])
      {
        if k < |ei| {
          assert p[k] == pi[k] && e[k] == ei[k] && init[pi[k]] == results[pi[k]];
        }
      }
      forall k1, k2 | 0 <= k1 < k2 < |e|
        ensures p[k1] < p[k2]
      {
        if k2 < |ei| {
          assert p[k1] == pi[k1] && p[k2] == pi[k2];
        } else {
          assert p[k1] == pi[k1] < last;
        }
      }
      forall i | 0 <= i < |results| && results[i].Some?
        ensures i in p
      {
        if i < last {
          assert init[i] == results[i] && i in pi;
        } else {
          assert p[|pi|] == last;
        }
      }
    }
  }

  /**
   * Every draft comes from the row at its `rowIndex`, so there are no more drafts than
   * rows, and the row indices strictly increase.
   */
  lemma DraftsSound(rows: seq<SheetRow>, ctx: UploadContext)
    ensures |Drafts(rows, ctx)| <= |rows|
    ensures forall k :: 0 <= k < |Drafts(rows, ctx)| ==>
      Drafts(rows, ctx)[k].rowIndex < |rows|
      && DraftFor(rows[Drafts(rows, ctx)[k].rowIndex], Drafts(rows, ctx)[k].rowIndex, ctx) == Some(Drafts(rows, ctx)[k])
    ensures forall k1, k2 :: 0 <= k1 < k2 < |Drafts(rows, ctx)| ==>
      Drafts(rows, ctx)[k1].rowIndex < Drafts(rows, ctx)[k2].rowIndex
  {
    var results := RowResults(rows, ctx);
    EmittedAt(results);
    var pos := EmittedPositions(results);
    forall k | 0 <= k < |Drafts(rows, ctx)|
      ensures Drafts(rows, ctx)[k].rowIndex == pos[k]
    {
      assert results[pos[k]] == Some(Drafts(rows, ctx)[k]);
    }
  }

  /** Every row that is not blank has its draft among the output. */
  lemma DraftsComplete(rows: seq<SheetRow>, ctx: UploadContext, i: nat)
    requires i < |rows| && DraftFor(rows[i], i, ctx).Some?
    ensures exists k :: 0 <= k < |Drafts(rows, ctx)| && Drafts(rows, ctx)[k] == DraftFor(rows[i], i, ctx).value
  {
    var results := RowResults(rows, ctx);
    EmittedAt(results);
    var pos := EmittedPositions(results);
    assert results[i] == DraftFor(rows[i], i, ctx);
    var k :| 0 <= k < |pos| && pos[k] == i;
    assert results[pos[k]] == Some(Emitted(results)[k]);
    assert Drafts(rows, ctx)[k] == DraftFor(rows[i], i, ctx).value;
  }
}
