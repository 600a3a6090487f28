/** `build_contract_lookup`: contract ID to the seven trimmed contract
    attributes of the first row carrying that ID. Rows with an empty ID are
    skipped and later rows for an ID already present change nothing. */
module ContractLookup {
  import opened Text
  import opened Tables

  /** The contract attributes copied into each record, in source order. */
  const CONTRACT_FIELDS: seq<string> :=
    ["Country Sold To", "User Type", "Remarks", "BP", "First Expiration Date", "License Count", "Language"]
  const CONTRACT_REQUIRED: set<string> :=
    {"ID", "Country Sold To", "User Type", "Remarks", "BP", "First Expiration Date", "License Count", "Language"}

  /** contract ID -> {attribute name -> trimmed cell} */
  type Lookup = map<string, Row>

  /** `str(row["ID"]).strip()` */
  function ContractId(row: Row): string {
    Strip(Cell(row, "ID"))
  }

  /** `{f: str(row.get(f, "")).strip() for f in fields}`, built one field at
      a time in the order of `fields`. */
  function Project(row: Row, fields: seq<string>): Row {
    if fields == [] then map[]
    else
      var n := |fields| - 1;
      Project(row, fields[..n])[fields[n] := Strip(Cell(row, fields[n]))]
  }

  /** The projection holds exactly the listed names, each mapped to its
      trimmed cell, which is a fixed point of `strip()`. */
  lemma {:induction false} ProjectSpec(row: Row, fields: seq<string>)
    ensures Project(row, fields).Keys == set f | f in fields
    ensures forall f | f in Project(row, fields) ::
              Project(row, fields)[f] == Strip(Cell(row, f))
              && Strip(Project(row, fields)[f]) == Project(row, fields)[f]
  {
    if fields != [] {
      var n := |fields| - 1;
      ProjectSpec(row, fields[..n]);
      assert fields == fields[..n] + [fields[n]];
      StripIdempotent(Cell(row, fields[n]));
    }
  }

  /** One iteration of the loop at lines 84-88, recording `fields`: a row
      adds at most its own non-empty ID to the keys, never changes an entry
      already present, and a new ID gets the row's projected record. */
  function AddContract(lookup: Lookup, row: Row, fields: seq<string>): (r: Lookup)
    ensures forall id :: id in r <==> id in lookup || (id == ContractId(row) && id != "")
    ensures forall id | id in lookup :: r[id] == lookup[id]
    ensures ContractId(row) != "" && ContractId(row) !in lookup ==> r[ContractId(row)] == Project(row, fields)
  {
    var cid := ContractId(row);
    if cid == "" || cid in lookup then lookup else lookup[cid := Project(row, fields)]
  }

  /** The lookup after the loop has consumed `rows`, recording `fields` of
      each kept row; `build_contract_lookup` records `CONTRACT_FIELDS`. */
  function LookupOf(rows: seq<Row>, fields: seq<string>): Lookup {
    if rows == [] then map[]
    else AddContract(LookupOf(rows[..|rows| - 1], fields), rows[|rows| - 1], fields)
  }

  /** `build_contract_lookup`: fails, naming the missing columns, iff the
      table lacks ID or one of the seven attributes; otherwise the loop
      builds `LookupOf(rows, CONTRACT_FIELDS)`. */
  method BuildContractLookup(contracts: Frame) returns (r: Result<Lookup>)
    ensures r.Err? <==> !(CONTRACT_REQUIRED <= ColumnSet(contracts))
    ensures r.Err? ==> r.error.source == ContractFile
                       && r.error.missing == Missing(CONTRACT_REQUIRED, contracts) != {}
    ensures r.Ok? ==> r.value == LookupOf(contracts.rows, CONTRACT_FIELDS)
  {
    var missing := Missing(CONTRACT_REQUIRED, contracts);
    if missing != {} {
      return Err(MissingColumns(ContractFile, missing));
    }
    var rows := contracts.rows;
    var lookup: Lookup := map[];
    var i := 0;
    while i < |rows|
      invariant 0 <= i <= |rows|
      invariant lookup == LookupOf(rows[..i], CONTRACT_FIELDS)
    {
      var row := rows[i];
      var cid := Strip(Cell(row, "ID"));
      if cid != "" && cid !in lookup {
        lookup := lookup[cid := Project(row, CONTRACT_FIELDS)];
      }
      LookupOfStep(rows, CONTRACT_FIELDS, i);
      i := i + 1;
    }
    assert rows[..i] == rows;
    return Ok(lookup);
  }

  /** Consuming one more row applies `AddContract` to the lookup so far. */
  lemma LookupOfStep(rows: seq<Row>, fields: seq<string>, i: nat)
    requires i < |rows|
    ensures LookupOf(rows[..i + 1], fields) == AddContract(LookupOf(rows[..i], fields), rows[i], fields)
  {
    var q := rows[..i + 1];
    assert q[..i] == rows[..i] && q[i] == rows[i];
  }

  /** Every key comes from some row with that (non-empty) trimmed ID. */
  lemma {:induction false} ContractKeyHasRow(rows: seq<Row>, fields: seq<string>, id: string)
    requires id in LookupOf(rows, fields)
    ensures id != "" && exists i :: 0 <= i < |rows| && ContractId(rows[i]) == id
  {
    var n := |rows| - 1;
    var p := rows[..n];
    if id in LookupOf(p, fields) {
      ContractKeyHasRow(p, fields, id);
      var i :| 0 <= i < |p| && ContractId(p[i]) == id;
      assert rows[i] == p[i];
    }
  }

  /** Every row with a non-empty trimmed ID puts that ID in the lookup. */
  lemma {:induction false} ContractRowIdIsKey(rows: seq<Row>, fields: seq<string>, i: nat)
    requires i < |rows| && ContractId(rows[i]) != ""
    ensures ContractId(rows[i]) in LookupOf(rows, fields)
  {
    var id := ContractId(rows[i]);
    LookupOfStep(rows, fields, i);
    LaterRowsChangeNothing(rows, fields, i + 1, id);
  }

  /** The keys are exactly the non-empty trimmed IDs that occur in the table. */
  lemma {:induction false} LookupDomain(rows: seq<Row>, fields: seq<string>, id: string)
    ensures id in LookupOf(rows, fields) <==>
              id != "" && exists i :: 0 <= i < |rows| && ContractId(rows[i]) == id
  {
    if id in LookupOf(rows, fields) {
      ContractKeyHasRow(rows, fields, id);
    } else if id != "" && exists i :: 0 <= i < |rows| && ContractId(rows[i]) == id {
      var i :| 0 <= i < |rows| && ContractId(rows[i]) == id;
      ContractRowIdIsKey(rows, fields, i);
    }
  }

  /** Every key is a non-empty trimmed ID, and every value holds exactly the
      seven attribute names, each mapped to a trimmed string. */
  lemma {:induction false} LookupEntriesWellFormed(rows: seq<Row>, fields: seq<string>)
    ensures forall id | id in LookupOf(rows, fields) ::
              id != "" && Strip(id) == id
              && LookupOf(rows, fields)[id].Keys == set f | f in fields
              && forall f | f in LookupOf(rows, fields)[id] ::
                   Strip(LookupOf(rows, fields)[id][f]) == LookupOf(rows, fields)[id][f]
  {
    if rows != [] {
      var n := |rows| - 1;
      LookupEntriesWellFormed(rows[..n], fields);
      StripIdempotent(Cell(rows[n], "ID"));
      ProjectSpec(rows[n], fields);
    }
  }

  /** Rows after a prefix never change an entry the prefix created: the
      lookup only grows, and an existing entry is never overwritten. */
  lemma {:induction false} LaterRowsChangeNothing(rows: seq<Row>, fields: seq<string>, k: nat, id: string)
    requires k <= |rows| && id in LookupOf(rows[..k], fields)
    ensures id in LookupOf(rows, fields) && LookupOf(rows, fields)[id] == LookupOf(rows[..k], fields)[id]
  {
    if k == |rows| {
      assert rows[..k] == rows;
    } else {
      var n := |rows| - 1;
      var p := rows[..n];
      assert p[..k] == rows[..k];
      LaterRowsChangeNothing(p, fields, k, id);
    }
  }

  /** The row that first carries an ID adds that ID's entry. */
  lemma {:induction false} FirstOccurrenceAdds(rows: seq<Row>, fields: seq<string>, i: nat)
    requires i < |rows| && ContractId(rows[i]) != ""
    requires forall j | 0 <= j < i :: ContractId(rows[j]) != ContractId(rows[i])
    ensures ContractId(rows[i]) in LookupOf(rows[..i + 1], fields)
    ensures LookupOf(rows[..i + 1], fields)[ContractId(rows[i])] == Project(rows[i], fields)
  {
    var id := ContractId(rows[i]);
    var p := rows[..i];
    forall j | 0 <= j < |p| ensures ContractId(p[j]) != id {
      assert p[j] == rows[j];
    }
    LookupDomain(p, fields, id);
    LookupOfStep(rows, fields, i);
  }

  /** First occurrence wins: the entry for an ID is the attribute record of
      the earliest row with that trimmed ID, whole, with nothing merged in
      from later rows. */
  lemma {:induction false} FirstOccurrenceWins(rows: seq<Row>, fields: seq<string>, i: nat)
    requires i < |rows| && ContractId(rows[i]) != ""
    requires forall j | 0 <= j < i :: ContractId(rows[j]) != ContractId(rows[i])
    ensures ContractId(rows[i]) in LookupOf(rows, fields)
    ensures LookupOf(rows, fields)[ContractId(rows[i])] == Project(rows[i], fields)
  {
    FirstOccurrenceAdds(rows, fields, i);
    LaterRowsChangeNothing(rows, fields, i + 1, ContractId(rows[i]));
  }
}
