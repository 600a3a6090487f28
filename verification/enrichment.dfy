/** The enrichment loop of `consolidate` (lines 165-195), lifted into its own
    operation: each filtered license record gets the contract attributes of
    its contract ID (or blanks where it has none) and a customer name from
    the finance lookup (or the sentinel), and two counters record the
    contract misses and the finance misses. */
module Enrichment {
  import opened Text
  import opened Tables
  import opened ContractLookup
  import opened FinanceLookup

  const CUSTOMER_NAME: string := "Customer name"

  /** `str(item.get("Contract ID", "")).strip()` */
  function LicenseContractId(item: Row): string {
    Strip(Cell(item, "Contract ID"))
  }

  /** `finance_lookup.get(contract_id, "#NA")` */
  function NameFor(finance: Names, cid: string): string {
    if cid in finance then finance[cid] else NA
  }

  /** `for f in fields: item.setdefault(f, "")` */
  function WithDefaults(item: Row, fields: seq<string>): Row {
    if fields == [] then item
    else
      var n := |fields| - 1;
      var r := WithDefaults(item, fields[..n]);
      if fields[n] in r then r else r[fields[n] := ""]
  }

  /** `setdefault` adds each listed name that is absent, as "", and leaves
      every value already present untouched. */
  lemma {:induction false} WithDefaultsSpec(item: Row, fields: seq<string>)
    ensures WithDefaults(item, fields).Keys == item.Keys + set f | f in fields
    ensures forall k | k in item :: WithDefaults(item, fields)[k] == item[k]
    ensures forall f | f in fields && f !in item :: WithDefaults(item, fields)[f] == ""
  {
    if fields != [] {
      var n := |fields| - 1;
      WithDefaultsSpec(item, fields[..n]);
      assert fields == fields[..n] + [fields[n]];
    }
  }

  /** The loop at lines 186-187, run on one item. */
  method SetDefaults(item: Row, fields: seq<string>) returns (r: Row)
    ensures r == WithDefaults(item, fields)
    ensures r.Keys == item.Keys + set f | f in fields
    ensures forall k | k in item :: r[k] == item[k]
    ensures forall f | f in fields && f !in item :: r[f] == ""
  {
    r := item;
    for k := 0 to |fields|
      invariant r == WithDefaults(item, fields[..k])
    {
      var f := fields[k];
      if f !in r {
        r := r[f := ""];
      }
      assert fields[..k + 1][..k] == fields[..k];
    }
    assert fields[..|fields|] == fields;
    WithDefaultsSpec(item, fields);
  }

  /** The record one loop iteration makes of `item`, where `fields` are the
      contract attributes a miss fills with blanks. On a contract hit every
      attribute of the lookup entry overwrites the record's own; on a miss
      each listed attribute keeps the record's value if it has one and is ""
      otherwise. "Customer name" is the finance name or the sentinel. Every
      other key keeps its value, and no key is added beyond these. */
  function EnrichedRecord(item: Row, contracts: Lookup, finance: Names, fields: seq<string>): (r: Row)
    ensures var cid := LicenseContractId(item);
      && CUSTOMER_NAME in r && r[CUSTOMER_NAME] == NameFor(finance, cid)
      && (cid in contracts ==>
            r.Keys == item.Keys + contracts[cid].Keys + {CUSTOMER_NAME}
            && (forall k | k in contracts[cid] && k != CUSTOMER_NAME :: r[k] == contracts[cid][k])
            && (forall k | k in item && k !in contracts[cid] && k != CUSTOMER_NAME :: r[k] == item[k]))
      && (cid !in contracts ==>
            r.Keys == item.Keys + (set f | f in fields) + {CUSTOMER_NAME}
            && (forall f | f in fields && f != CUSTOMER_NAME :: r[f] == Cell(item, f))
            && (forall k | k in item && k != CUSTOMER_NAME :: r[k] == item[k]))
  {
    WithDefaultsSpec(item, fields);
    var cid := LicenseContractId(item);
    var merged := if cid in contracts then item + contracts[cid] else WithDefaults(item, fields);
    merged[CUSTOMER_NAME := NameFor(finance, cid)]
  }

  /** How many items have a trimmed Contract ID that is not a contract key. */
  function ContractMisses(items: seq<Row>, contracts: Lookup): (n: nat)
    ensures n <= |items|
    ensures n == 0 <==> forall k | 0 <= k < |items| :: LicenseContractId(items[k]) in contracts
  {
    if items == [] then 0
    else
      var last := |items| - 1;
      ContractMisses(items[..last], contracts)
      + (if LicenseContractId(items[last]) in contracts then 0 else 1)
  }

  /** How many items get the sentinel as customer name: their ID is absent
      from the finance lookup or is stored there with the sentinel. */
  function FinanceMisses(items: seq<Row>, finance: Names): (n: nat)
    ensures n <= |items|
    ensures n == 0 <==> forall k | 0 <= k < |items| :: NameFor(finance, LicenseContractId(items[k])) != NA
  {
    if items == [] then 0
    else
      var last := |items| - 1;
      FinanceMisses(items[..last], finance)
      + (if NameFor(finance, LicenseContractId(items[last])) == NA then 1 else 0)
  }

  /** How many records carry the sentinel as customer name. */
  function NameMisses(records: seq<Row>): (n: nat)
    ensures n <= |records|
  {
    if records == [] then 0
    else
      var last := |records| - 1;
      NameMisses(records[..last]) + (if Cell(records[last], CUSTOMER_NAME) == NA then 1 else 0)
  }

  /** One pass of the loop body at lines 179-195 on `item`: it reports
      whether the contract lookup missed and whether the customer name fell
      back to the sentinel. */
  method EnrichItem(item: Row, contracts: Lookup, finance: Names, fields: seq<string>)
    returns (record: Row, contractMiss: bool, financeMiss: bool)
    ensures record == EnrichedRecord(item, contracts, finance, fields)
    ensures contractMiss <==> LicenseContractId(item) !in contracts
    ensures financeMiss <==> Cell(record, CUSTOMER_NAME) == NA
    ensures financeMiss <==> NameFor(finance, LicenseContractId(item)) == NA
  {
    var contractId := Strip(Cell(item, "Contract ID"));
    record := item;
    contractMiss := contractId !in contracts;
    if contractMiss {
      record := SetDefaults(record, fields);
    } else {
      record := record + contracts[contractId];
    }
    var customerName := if contractId in finance then finance[contractId] else NA;
    financeMiss := customerName == NA;
    record := record[CUSTOMER_NAME := customerName];
  }

  /** The records the enrichment loop produces, one per item, in order. */
  function EnrichAll(items: seq<Row>, contracts: Lookup, finance: Names, fields: seq<string>): (records: seq<Row>)
    ensures |records| == |items|
  {
    if items == [] then []
    else
      var n := |items| - 1;
      EnrichAll(items[..n], contracts, finance, fields) + [EnrichedRecord(items[n], contracts, finance, fields)]
  }

  /** Record `k` of the output is item `k` enriched. */
  lemma {:induction false} EnrichAllSpec(items: seq<Row>, contracts: Lookup, finance: Names, fields: seq<string>)
    ensures forall k | 0 <= k < |items| ::
              EnrichAll(items, contracts, finance, fields)[k] == EnrichedRecord(items[k], contracts, finance, fields)
  {
    if items != [] {
      var n := |items| - 1;
      var p := items[..n];
      EnrichAllSpec(p, contracts, finance, fields);
      var done, records := EnrichAll(p, contracts, finance, fields), EnrichAll(items, contracts, finance, fields);
      assert records[..n] == done;
      forall k | 0 <= k < |items|
        ensures records[k] == EnrichedRecord(items[k], contracts, finance, fields)
      {
        if k < n {
          assert records[k] == done[k] && items[k] == p[k];
        }
      }
    }
  }

  /** The finance misses are exactly the output records named with the
      sentinel, whichever way the sentinel came (ID absent from the finance
      lookup or stored there as "#NA"). */
  lemma {:induction false} NameMissesAreFinanceMisses(items: seq<Row>, contracts: Lookup, finance: Names, fields: seq<string>)
    ensures NameMisses(EnrichAll(items, contracts, finance, fields)) == FinanceMisses(items, finance)
  {
    if items != [] {
      var n := |items| - 1;
      var p := items[..n];
      NameMissesAreFinanceMisses(p, contracts, finance, fields);
      var records := EnrichAll(items, contracts, finance, fields);
      assert records[..n] == EnrichAll(p, contracts, finance, fields);
    }
  }

  /** Extending the items by one extends the records by that item's record
      and each counter by that item's miss. */
  lemma EnrichStep(items: seq<Row>, contracts: Lookup, finance: Names, fields: seq<string>, i: nat)
    requires i < |items|
    ensures EnrichAll(items[..i + 1], contracts, finance, fields)
            == EnrichAll(items[..i], contracts, finance, fields) + [EnrichedRecord(items[i], contracts, finance, fields)]
    ensures ContractMisses(items[..i + 1], contracts)
            == ContractMisses(items[..i], contracts) + (if LicenseContractId(items[i]) in contracts then 0 else 1)
    ensures FinanceMisses(items[..i + 1], finance)
            == FinanceMisses(items[..i], finance) + (if NameFor(finance, LicenseContractId(items[i])) == NA then 1 else 0)
  {
    var prefix := items[..i + 1];
    assert prefix[..i] == items[..i] && prefix[i] == items[i];
  }

  /** The enrichment loop with `fields` as the contract attribute list (the
      source passes its seven contract fields): one record per item, in
      order; `missingContract` counts the items whose contract ID is not in
      the contract lookup and `missingFinance` the records whose customer
      name is the sentinel. */
  method Enrich(items: seq<Row>, contracts: Lookup, finance: Names, fields: seq<string>)
    returns (records: seq<Row>, missingContract: nat, missingFinance: nat)
    ensures records == EnrichAll(items, contracts, finance, fields)
    ensures forall k | 0 <= k < |items| ::
              records[k] == EnrichedRecord(items[k], contracts, finance, fields)
    ensures missingContract == ContractMisses(items, contracts) <= |items|
    ensures missingFinance == NameMisses(records) == FinanceMisses(items, finance) <= |items|
  {
    records, missingContract, missingFinance := [], 0, 0;
    for i := 0 to |items|
      invariant records == EnrichAll(items[..i], contracts, finance, fields)
      invariant missingContract == ContractMisses(items[..i], contracts)
      invariant missingFinance == FinanceMisses(items[..i], finance)
    {
      var record, contractMiss, financeMiss := EnrichItem(items[i], contracts, finance, fields);
      if contractMiss {
        missingContract := missingContract + 1;
      }
      if financeMiss {
        missingFinance := missingFinance + 1;
      }
      EnrichStep(items, contracts, finance, fields, i);
      records := records + [record];
    }
    assert items[..|items|] == items;
    EnrichAllSpec(items, contracts, finance, fields);
    NameMissesAreFinanceMisses(items, contracts, finance, fields);
  }
}
