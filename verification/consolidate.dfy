/** The record-processing part of `consolidate`: filter the license table,
    build the two lookups, enrich the filtered records. Reading the three
    files and writing the report are not part of this model. */
module Consolidate {
  import opened Text
  import opened Tables
  import opened LicenseFilter
  import opened ContractLookup
  import opened FinanceLookup
  import opened Enrichment

  /** What `consolidate` has in hand before writing: the enriched records
      and the three numbers of its console summary. */
  datatype Report = Report(records: seq<Row>, filtered: nat, missingContract: nat, missingFinance: nat)

  /** `consolidate` between reading the inputs and writing the output. The
      license table is checked first, then the contract table, then the
      finance table; the first one lacking a required column fails the
      run. Otherwise the report holds one enriched record per eligible
      license row, in order, and the miss counts over those records. */
  method ConsolidateTables(licenses: Frame, contracts: Frame, finance: Frame) returns (r: Result<Report>)
    ensures !(LICENSE_REQUIRED <= ColumnSet(licenses)) ==>
              r == Err(MissingColumns(LicenseFile, Missing(LICENSE_REQUIRED, licenses)))
    ensures LICENSE_REQUIRED <= ColumnSet(licenses) && !(CONTRACT_REQUIRED <= ColumnSet(contracts)) ==>
              r == Err(MissingColumns(ContractFile, Missing(CONTRACT_REQUIRED, contracts)))
    ensures LICENSE_REQUIRED <= ColumnSet(licenses) && CONTRACT_REQUIRED <= ColumnSet(contracts)
            && !(FINANCE_REQUIRED <= ColumnSet(finance)) ==>
              r == Err(MissingColumns(FinanceFile, Missing(FINANCE_REQUIRED, finance)))
    ensures r.Ok? <==> LICENSE_REQUIRED <= ColumnSet(licenses) && CONTRACT_REQUIRED <= ColumnSet(contracts)
                       && FINANCE_REQUIRED <= ColumnSet(finance)
    ensures r.Ok? ==>
              var items := SelectEligible(licenses.rows);
              var contractLookup, financeLookup := LookupOf(contracts.rows, CONTRACT_FIELDS), NamesOf(finance.rows);
              && r.value.filtered == |items| == |r.value.records|
              && (forall k | 0 <= k < |items| ::
                    r.value.records[k] == EnrichedRecord(items[k], contractLookup, financeLookup, CONTRACT_FIELDS))
              && r.value.missingContract == ContractMisses(items, contractLookup)
              && r.value.missingFinance == FinanceMisses(items, financeLookup) == NameMisses(r.value.records)
  {
    var filtered := FilterLicenseRows(licenses);
    if filtered.Err? {
      return Err(filtered.error);
    }
    var items := filtered.value.rows;
    var contractLookup := BuildContractLookup(contracts);
    if contractLookup.Err? {
      return Err(contractLookup.error);
    }
    var financeLookup := BuildFinanceLookup(finance);
    if financeLookup.Err? {
      return Err(financeLookup.error);
    }
    var records, missingContract, missingFinance := Enrich(items, contractLookup.value, financeLookup.value, CONTRACT_FIELDS);
    return Ok(Report(records, |items|, missingContract, missingFinance));
  }

  /** Every record of the report is still an eligible license row with its
      own Contract ID, carries every contract attribute, and is named with
      the sentinel or a non-empty trimmed customer name; on a contract hit
      every attribute holds a trimmed value. Stated for any attribute list
      that, like `CONTRACT_FIELDS`, does not contain the Product, Tier,
      Contract ID or Customer name columns. */
  lemma {:induction false} ReportRecordShape(licenseRows: seq<Row>, contractRows: seq<Row>, financeRows: seq<Row>,
                          fields: seq<string>, k: nat)
    requires "Product" !in fields && "Tier" !in fields
    requires "Contract ID" !in fields && CUSTOMER_NAME !in fields
    requires k < |SelectEligible(licenseRows)|
    ensures var item := SelectEligible(licenseRows)[k];
            var contractLookup := LookupOf(contractRows, fields);
            var r := EnrichedRecord(item, contractLookup, NamesOf(financeRows), fields);
            var cid := LicenseContractId(item);
            && Eligible(r)
            && Cell(r, "Contract ID") == Cell(item, "Contract ID")
            && (forall f | f in fields :: f in r)
            && CUSTOMER_NAME in r
            && (r[CUSTOMER_NAME] == NA || (r[CUSTOMER_NAME] != "" && Strip(r[CUSTOMER_NAME]) == r[CUSTOMER_NAME]))
            && (cid in contractLookup ==> forall f | f in fields :: Strip(r[f]) == r[f])
  {
    var item := SelectEligible(licenseRows)[k];
    var contractLookup, financeLookup := LookupOf(contractRows, fields), NamesOf(financeRows);
    var r := EnrichedRecord(item, contractLookup, financeLookup, fields);
    var cid := LicenseContractId(item);
    SelectEligibleIsMask(licenseRows);
    LookupEntriesWellFormed(contractRows, fields);
    NamesWellFormed(financeRows);
    assert Cell(r, "Product") == Cell(item, "Product");
    assert Cell(r, "Tier") == Cell(item, "Tier");
  }

  /** The contract attribute list shares no name with the columns the
      filter reads, the join key or the customer-name column. */
  lemma ContractFieldsAreSeparate()
    ensures "Product" !in CONTRACT_FIELDS && "Tier" !in CONTRACT_FIELDS
    ensures "Contract ID" !in CONTRACT_FIELDS && CUSTOMER_NAME !in CONTRACT_FIELDS
  {
  }

  /** `ReportRecordShape` for the attribute list `consolidate` uses. */
  lemma ContractRecordShape(licenseRows: seq<Row>, contractRows: seq<Row>, financeRows: seq<Row>, k: nat)
    requires k < |SelectEligible(licenseRows)|
    ensures var item := SelectEligible(licenseRows)[k];
            var contractLookup := LookupOf(contractRows, CONTRACT_FIELDS);
            var r := EnrichedRecord(item, contractLookup, NamesOf(financeRows), CONTRACT_FIELDS);
            && Eligible(r)
            && Cell(r, "Contract ID") == Cell(item, "Contract ID")
            && (forall f | f in CONTRACT_FIELDS :: f in r)
            && CUSTOMER_NAME in r
            && (r[CUSTOMER_NAME] == NA || (r[CUSTOMER_NAME] != "" && Strip(r[CUSTOMER_NAME]) == r[CUSTOMER_NAME]))
            && (LicenseContractId(item) in contractLookup ==> forall f | f in CONTRACT_FIELDS :: Strip(r[f]) == r[f])
  {
    ContractFieldsAreSeparate();
    ReportRecordShape(licenseRows, contractRows, financeRows, CONTRACT_FIELDS, k);
  }
}
