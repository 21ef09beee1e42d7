/** Two rows worked through the upload pass, mirroring the demo job's line items. */
module Scenarios {
  import opened Wrappers
  import opened JsText
  import opened JsMath
  import opened Money
  import opened Classifier
  import opened Upload

  /** The rule the pass uses when no rules are loaded from the store. */
  function SeedRules(): seq<Rule> {
    [Rule(NonSor, CarpetDescription, "Flooring", Some(1))]
  }

  function GasRow(): SheetRow {
    SheetRow("7300EA", "VOID:SAFETY CHECK AND TEST GAS INSTALLATION", Some(58.01), Some(65.55),
             "IT", Some(1.0), None, "General", "Landlord gas & safety certificate")
  }

  function CarpetRow(): SheetRow {
    SheetRow("NONSOR", CarpetDescription, Some(27.91), Some(32.1),
             "IT", Some(2.0), None, "Lounge", "Fixed-rate special")
  }

  /** The gas row's code carries no surrounding whitespace. */
  lemma GasRowCodeTrimmed()
    ensures Trim(GasRow().code) == GasRow().code
  {
    var code := GasRow().code;
    assert SkipLeading(code, 0) == 0;
    assert SkipTrailing(code, 0, |code|) == |code|;
  }

  /**
   * With no rule to match, the gas safety row is filed under "Other"; its contract rate
   * 65.55 is not within a penny of 58.01 * 1.15, so it needs review either way.
   */
  lemma GasRowUnmatched(ctx: UploadContext)
    requires ctx.rules == []
    ensures DraftFor(GasRow(), 0, ctx).Some?
    ensures DraftFor(GasRow(), 0, ctx).value.category == FallbackCategory
    ensures DraftFor(GasRow(), 0, ctx).value.needsReview
    ensures DraftFor(GasRow(), 0, ctx).value.contractRatePence == 6555
    ensures !ContractRateCheck(58.01, 65.55, GasRow().code, GasRow().description).valid
  {
    var row := GasRow();
    GasRowCodeTrimmed();
    ClassifyFallback(row.code, row.description, ctx.rules);
    DraftOfRow(row, 0, ctx);
    DraftReviewFlag(row, 0, ctx);
    assert !IsCarpet(Trim(row.code), Trim(row.description));
    UpliftRowRate(row, 0, ctx);
    RoundUnique(65.55 * 100.0, 6555);
  }

  /** The carpet row's text cells carry no surrounding whitespace. */
  lemma CarpetRowTrimmed()
    ensures Trim(CarpetRow().code) == CarpetRow().code
    ensures Trim(CarpetRow().description) == CarpetDescription
    ensures Trim(CarpetRow().location) == CarpetRow().location
    ensures Trim(CarpetRow().comments) == CarpetRow().comments
  {
    var row := CarpetRow();
    assert SkipLeading(row.code, 0) == 0;
    assert SkipTrailing(row.code, 0, |row.code|) == |row.code|;
    assert SkipLeading(row.description, 0) == 0;
    assert SkipTrailing(row.description, 0, |row.description|) == |row.description|;
    assert SkipLeading(row.location, 0) == 0;
    assert SkipTrailing(row.location, 0, |row.location|) == |row.location|;
    assert SkipLeading(row.comments, 0) == 0;
    assert SkipTrailing(row.comments, 0, |row.comments|) == |row.comments|;
  }

  /** The seed rule files the carpet row under Flooring without review. */
  lemma CarpetRowClassified()
    ensures Classify(CarpetRow().code, CarpetRow().description, SeedRules()) == Classification("Flooring", false)
  {
    var row := CarpetRow();
    CarpetRowTrimmed();
    var lower := Lower(CarpetDescription);
    assert OccursAt(lower, Lower(CarpetDescription), 0);
    assert IsBestMatch(SeedRules(), lower, 0);
    ClassifyByDescription(row.code, row.description, SeedRules(), 0);
  }

  lemma FlooringKey()
    ensures "Flooring" + "|" + "Gloucester" == "Flooring|Gloucester"
  {
  }

  /**
   * The carpet row, with the seed rule and a Gloucester default for Flooring: it is
   * Flooring, priced at the fixed rate (3210 pence, 6420 for two), assigned to the
   * default contractor, and needs no review.
   */
  lemma CarpetRowAssigned()
    ensures var ctx := UploadContext(SeedRules(), map["Flooring|Gloucester" := "Acme Flooring Ltd"], "Gloucester", "");
      DraftFor(CarpetRow(), 1, ctx) == Some(Draft(
        code := "NONSOR", description := CarpetDescription,
        baseRatePence := 2791, contractRatePence := 3210, unit := "IT", qty := 2.0,
        totalPence := 6420, location := "Lounge", comments := "Fixed-rate special",
        category := "Flooring", assigneeName := "Acme Flooring Ltd", status := Assigned,
        rowIndex := 1, needsReview := false))
  {
    var row := CarpetRow();
    var ctx := UploadContext(SeedRules(), map["Flooring|Gloucester" := "Acme Flooring Ltd"], "Gloucester", "");
    CarpetRowTrimmed();
    CarpetRowClassified();
    DraftOfRow(row, 1, ctx);
    CarpetRowPricing(row, 1, ctx);
    NeedsReviewIff(row, 1, ctx);
    AssigneeDefault(row, 1, ctx);
    ClassifyNeedsReviewIff(row.code, row.description, ctx.rules);
    var d := DraftFor(row, 1, ctx).value;
    FlooringKey();
    RoundUnique(27.91 * 100.0, 2791);
    RoundUnique(CarpetRate * 2.0 * 100.0, 6420);
  }
}
