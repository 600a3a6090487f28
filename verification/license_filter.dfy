/** `filter_license_rows`: the license rows kept for the report are those whose
    product is Inspect and whose tier is one of the allowed tiers, compared
    after trimming and lower-casing. The selection is a boolean mask, so the
    kept rows stay in input order. */
module LicenseFilter {
  import opened Text
  import opened Tables

  const PRODUCT_ALLOWED: string := "inspect"
  const TIERS_ALLOWED: set<string> := {"enterprise", "enterprise ai", "inspect pro", "starter+"}
  const LICENSE_REQUIRED: set<string> := {"Contract ID", "Product", "Tier"}

  /** `.astype(str).str.strip().str.lower()` on one cell. */
  function Normalize(cell: string): string {
    Lower(Strip(cell))
  }

  /** The mask of one row: product equals "inspect" and tier is allowed.
      A row without a Product or a Tier cell reads "" there, which matches
      neither, so an eligible row has both. */
  predicate Eligible(row: Row)
    ensures Eligible(row) ==> "Product" in row && "Tier" in row
  {
    Normalize(Cell(row, "Product")) == PRODUCT_ALLOWED
    && Normalize(Cell(row, "Tier")) in TIERS_ALLOWED
  }

  /** The boolean mask of line 139, one entry per row. */
  function Mask(rows: seq<Row>): (mask: seq<bool>)
    ensures |mask| == |rows|
  {
    seq(|rows|, i requires 0 <= i < |rows| => Eligible(rows[i]))
  }

  /** `df.loc[mask]`: the rows whose mask entry is true. */
  function SelectWhere(rows: seq<Row>, mask: seq<bool>): (kept: seq<Row>)
    requires |mask| == |rows|
    ensures |kept| <= |rows|
  {
    if rows == [] then []
    else
      var n := |rows| - 1;
      SelectWhere(rows[..n], mask[..n]) + (if mask[n] then [rows[n]] else [])
  }

  /** The positions where the mask is true, in increasing order. */
  function TrueIndices(mask: seq<bool>): (idx: seq<nat>)
    ensures forall k | 0 <= k < |idx| :: idx[k] < |mask|
  {
    if mask == [] then []
    else
      var n := |mask| - 1;
      TrueIndices(mask[..n]) + (if mask[n] then [n] else [])
  }

  /** Selecting by a mask keeps a row iff its mask entry is true, and keeps
      the rows in place: the output is exactly the input rows at the true
      positions, in increasing position order. */
  lemma {:induction false} SelectWhereByIndices(rows: seq<Row>, mask: seq<bool>)
    requires |mask| == |rows|
    ensures |TrueIndices(mask)| == |SelectWhere(rows, mask)|
    ensures forall k | 0 <= k < |TrueIndices(mask)| ::
              SelectWhere(rows, mask)[k] == rows[TrueIndices(mask)[k]]
    ensures forall k, l | 0 <= k < l < |TrueIndices(mask)| ::
              TrueIndices(mask)[k] < TrueIndices(mask)[l]
    ensures forall i | 0 <= i < |mask| :: mask[i] <==> i in TrueIndices(mask)
  {
    if rows != [] {
      var n := |rows| - 1;
      var p, pm := rows[..n], mask[..n];
      SelectWhereByIndices(p, pm);
      var idx, pidx := TrueIndices(mask), TrueIndices(pm);
      var kept, pkept := SelectWhere(rows, mask), SelectWhere(p, pm);
      assert idx[..|pidx|] == pidx;
      assert kept[..|pkept|] == pkept;
      forall k | 0 <= k < |idx| ensures kept[k] == rows[idx[k]] {
        if k < |pidx| {
          assert kept[k] == pkept[k] && idx[k] == pidx[k];
          assert rows[pidx[k]] == p[pidx[k]];
        }
      }
      forall i | 0 <= i < |mask| ensures mask[i] <==> i in idx {
        if i < n {
          assert mask[i] == pm[i];
          assert n !in pidx;
        } else {
          assert i !in pidx;
        }
      }
    }
  }

  /** A mask that is true everywhere selects every row. */
  lemma {:induction false} SelectWhereAllTrue(rows: seq<Row>, mask: seq<bool>)
    requires |mask| == |rows|
    requires forall i | 0 <= i < |mask| :: mask[i]
    ensures SelectWhere(rows, mask) == rows
  {
    if rows != [] {
      var n := |rows| - 1;
      SelectWhereAllTrue(rows[..n], mask[..n]);
      assert rows[..n] + [rows[n]] == rows;
    }
  }

  /** The rows `filter_license_rows` keeps. */
  function SelectEligible(rows: seq<Row>): seq<Row> {
    SelectWhere(rows, Mask(rows))
  }

  /** The filter rule: a row is kept iff its trimmed, lower-cased product is
      "inspect" and its trimmed, lower-cased tier is an allowed tier, and the
      kept rows are exactly the eligible input rows, in input order. */
  lemma {:induction false} SelectEligibleIsMask(rows: seq<Row>)
    ensures |TrueIndices(Mask(rows))| == |SelectEligible(rows)|
    ensures forall k | 0 <= k < |SelectEligible(rows)| ::
              SelectEligible(rows)[k] == rows[TrueIndices(Mask(rows))[k]]
    ensures forall k, l | 0 <= k < l < |SelectEligible(rows)| ::
              TrueIndices(Mask(rows))[k] < TrueIndices(Mask(rows))[l]
    ensures forall i | 0 <= i < |rows| :: Eligible(rows[i]) <==> i in TrueIndices(Mask(rows))
    ensures forall k | 0 <= k < |SelectEligible(rows)| :: Eligible(SelectEligible(rows)[k])
  {
    SelectWhereByIndices(rows, Mask(rows));
    var idx := TrueIndices(Mask(rows));
    forall k | 0 <= k < |SelectEligible(rows)| ensures Eligible(SelectEligible(rows)[k]) {
      assert idx[k] in idx;
      assert Mask(rows)[idx[k]];
    }
  }

  /** Filtering an already filtered table changes nothing. */
  lemma {:induction false} SelectEligibleIdempotent(rows: seq<Row>)
    ensures SelectEligible(SelectEligible(rows)) == SelectEligible(rows)
  {
    var kept := SelectEligible(rows);
    SelectEligibleIsMask(rows);
    SelectWhereAllTrue(kept, Mask(kept));
  }

  /** The mask reads the Product and Tier cells and nothing else: in
      particular the business-unit column plays no part in this filter. */
  lemma EligibleReadsProductAndTier(row: Row, column: string, value: string)
    requires column != "Product" && column != "Tier"
    ensures Eligible(row[column := value]) == Eligible(row)
  {
  }

  /** `filter_license_rows`: fails, naming the missing columns, iff one of
      Contract ID, Product, Tier is absent; otherwise returns the same
      columns and the eligible rows. */
  function FilterLicenseRows(licenses: Frame): (r: Result<Frame>)
    ensures r.Err? <==> !(LICENSE_REQUIRED <= ColumnSet(licenses))
    ensures r.Err? ==> r.error.source == LicenseFile
                       && r.error.missing == Missing(LICENSE_REQUIRED, licenses) != {}
    ensures r.Ok? ==> r.value.columns == licenses.columns
                      && r.value.rows == SelectEligible(licenses.rows)
  {
    var missing := Missing(LICENSE_REQUIRED, licenses);
    if missing != {} then Err(MissingColumns(LicenseFile, missing))
    else Ok(Frame(licenses.columns, SelectEligible(licenses.rows)))
  }
}
