/** `build_finance_lookup`: contract ID to customer name. Per ID the first
    real name wins; the sentinel "#NA" is stored while no real name has been
    seen and is replaced by the first real one. */
module FinanceLookup {
  import opened Text
  import opened Tables

  /** The sentinel for "no customer name on record". */
  const NA: string := "#NA"
  const FINANCE_REQUIRED: set<string> := {"Contract ID", "Customer name"}

  /** contract ID -> customer name or NA */
  type Names = map<string, string>

  /** What the loop reads from one finance row: its trimmed contract ID and
      its trimmed customer name. */
  datatype Entry = Entry(cid: string, cname: string)

  /** `str(row["Contract ID"]).strip()` and `str(row.get("Customer name", "")).strip()` */
  function ReadEntry(row: Row): Entry {
    Entry(Strip(Cell(row, "Contract ID")), Strip(Cell(row, "Customer name")))
  }

  /** The entries of a table, one per row, in row order. */
  function ReadEntries(rows: seq<Row>): (es: seq<Entry>)
    ensures |es| == |rows|
  {
    seq(|rows|, i requires 0 <= i < |rows| => ReadEntry(rows[i]))
  }

  /** Reading keeps both fields trimmed. */
  predicate Trimmed(e: Entry) {
    Strip(e.cid) == e.cid && Strip(e.cname) == e.cname
  }

  /** Every entry read from a table is trimmed. */
  lemma {:induction false} ReadEntriesTrimmed(rows: seq<Row>)
    ensures forall i | 0 <= i < |rows| :: Trimmed(ReadEntries(rows)[i])
  {
    forall i | 0 <= i < |rows| ensures Trimmed(ReadEntries(rows)[i]) {
      StripIdempotent(Cell(rows[i], "Contract ID"));
      StripIdempotent(Cell(rows[i], "Customer name"));
    }
  }

  /** A name that does not count as a real name: empty, or the sentinel text
      itself (the code cannot tell a stored "#NA" name from the sentinel). */
  predicate IsPlaceholder(name: string) {
    name == "" || name == NA
  }

  /** One iteration of the loop at lines 106-120. The entry is skipped when
      its ID is empty, when the ID already has a real name, or when its name
      is empty and the ID already holds the sentinel; otherwise the ID gets
      the entry's name, or the sentinel when that name is empty. */
  function AddName(lookup: Names, e: Entry): (r: Names)
    ensures forall id :: id in r <==> id in lookup || (id == e.cid && id != "")
    ensures forall id | id in lookup && (id != e.cid || lookup[id] != NA) :: r[id] == lookup[id]
    ensures e.cid != "" && e.cname != "" && (e.cid !in lookup || lookup[e.cid] == NA) ==> r[e.cid] == e.cname
    ensures e.cid != "" && e.cname == "" && e.cid !in lookup ==> r[e.cid] == NA
    ensures e.cname == "" ==> forall id | id in lookup :: r[id] == lookup[id]
  {
    var skip := e.cid == "" || (e.cid in lookup && (lookup[e.cid] != NA || e.cname == ""));
    if skip then lookup else lookup[e.cid := if e.cname != "" then e.cname else NA]
  }

  /** The lookup after the loop has consumed the entries `es`. */
  function NamesFrom(es: seq<Entry>): Names {
    if es == [] then map[] else AddName(NamesFrom(es[..|es| - 1]), es[|es| - 1])
  }

  /** The lookup `build_finance_lookup` builds from a table. */
  function NamesOf(rows: seq<Row>): Names {
    NamesFrom(ReadEntries(rows))
  }

  /** `build_finance_lookup`: fails, naming the missing columns, iff the
      table lacks Contract ID or Customer name; otherwise the loop builds
      `NamesOf(rows)`. */
  method BuildFinanceLookup(finance: Frame) returns (r: Result<Names>)
    ensures r.Err? <==> !(FINANCE_REQUIRED <= ColumnSet(finance))
    ensures r.Err? ==> r.error.source == FinanceFile
                       && r.error.missing == Missing(FINANCE_REQUIRED, finance) != {}
    ensures r.Ok? ==> r.value == NamesOf(finance.rows)
  {
    var missing := Missing(FINANCE_REQUIRED, finance);
    if missing != {} {
      return Err(MissingColumns(FinanceFile, missing));
    }
    var rows := finance.rows;
    ghost var es := ReadEntries(rows);
    var lookup: Names := map[];
    var i := 0;
    while i < |rows|
      invariant 0 <= i <= |rows|
      invariant lookup == NamesFrom(es[..i])
    {
      var row := rows[i];
      var cid := Strip(Cell(row, "Contract ID"));
      var cname := Strip(Cell(row, "Customer name"));
      NamesFromStep(es, i);
      assert es[i] == Entry(cid, cname);
      if cid == "" {
        i := i + 1;
        continue;
      }
      if cid in lookup && lookup[cid] != NA {
        i := i + 1;
        continue;
      }
      if cname != "" {
        lookup := lookup[cid := cname];
      } else if cid !in lookup {
        lookup := lookup[cid := NA];
      }
      i := i + 1;
    }
    assert es[..i] == es;
    return Ok(lookup);
  }

  /** Consuming one more entry applies `AddName` to the lookup so far. */
  lemma NamesFromStep(es: seq<Entry>, i: nat)
    requires i < |es|
    ensures NamesFrom(es[..i + 1]) == AddName(NamesFrom(es[..i]), es[i])
  {
    var q := es[..i + 1];
    assert q[..i] == es[..i] && q[i] == es[i];
  }

  /** Every key comes from some entry with that (non-empty) ID. */
  lemma {:induction false} KeyHasEntry(es: seq<Entry>, id: string)
    requires id in NamesFrom(es)
    ensures id != "" && exists i :: 0 <= i < |es| && es[i].cid == id
  {
    var n := |es| - 1;
    var p := es[..n];
    if id in NamesFrom(p) {
      KeyHasEntry(p, id);
      var i :| 0 <= i < |p| && p[i].cid == id;
      assert es[i] == p[i];
    }
  }

  /** An ID present in the lookup stays present. */
  lemma {:induction false} NamesGrow(es: seq<Entry>, k: nat, id: string)
    requires k <= |es| && id in NamesFrom(es[..k])
    ensures id in NamesFrom(es)
  {
    if k == |es| {
      assert es[..k] == es;
    } else {
      var n := |es| - 1;
      var p := es[..n];
      assert p[..k] == es[..k];
      NamesGrow(p, k, id);
    }
  }

  /** Every entry with a non-empty ID puts that ID in the lookup. */
  lemma {:induction false} EntryIdIsKey(es: seq<Entry>, i: nat)
    requires i < |es| && es[i].cid != ""
    ensures es[i].cid in NamesFrom(es)
  {
    NamesFromStep(es, i);
    NamesGrow(es, i + 1, es[i].cid);
  }

  /** The keys are exactly the non-empty trimmed IDs that occur in the
      table: an ID whose rows carry no name is present, mapped to the
      sentinel, not absent. */
  lemma {:induction false} NamesDomain(rows: seq<Row>, id: string)
    ensures id in NamesOf(rows) <==>
              id != "" && exists i :: 0 <= i < |rows| && ReadEntry(rows[i]).cid == id
  {
    var es := ReadEntries(rows);
    if id in NamesFrom(es) {
      KeyHasEntry(es, id);
      var i :| 0 <= i < |es| && es[i].cid == id;
      assert ReadEntry(rows[i]) == es[i];
    } else if id != "" && exists i :: 0 <= i < |rows| && ReadEntry(rows[i]).cid == id {
      var i :| 0 <= i < |rows| && ReadEntry(rows[i]).cid == id;
      assert es[i] == ReadEntry(rows[i]);
      EntryIdIsKey(es, i);
    }
  }

  /** Built from trimmed entries, every key is a non-empty trimmed ID and
      every value is the sentinel or a non-empty trimmed name. */
  lemma {:induction false} NamesFromWellFormed(es: seq<Entry>)
    requires forall i | 0 <= i < |es| :: Trimmed(es[i])
    ensures forall id | id in NamesFrom(es) ::
              id != "" && Strip(id) == id
              && (NamesFrom(es)[id] == NA
                  || (NamesFrom(es)[id] != "" && Strip(NamesFrom(es)[id]) == NamesFrom(es)[id]))
  {
    if es != [] {
      var n := |es| - 1;
      var p := es[..n];
      forall i | 0 <= i < |p| ensures Trimmed(p[i]) {
        assert p[i] == es[i];
      }
      NamesFromWellFormed(p);
      assert Trimmed(es[n]);
    }
  }

  /** Every key of the finance lookup is a non-empty trimmed ID and every
      value is the sentinel or a non-empty trimmed name. */
  lemma {:induction false} NamesWellFormed(rows: seq<Row>)
    ensures forall id | id in NamesOf(rows) ::
              id != "" && Strip(id) == id
              && (NamesOf(rows)[id] == NA
                  || (NamesOf(rows)[id] != "" && Strip(NamesOf(rows)[id]) == NamesOf(rows)[id]))
  {
    ReadEntriesTrimmed(rows);
    NamesFromWellFormed(ReadEntries(rows));
  }

  /** Real names are sticky: once an ID maps to something other than the
      sentinel, no later entry changes it, whatever name that entry carries. */
  lemma {:induction false} RealNameSticky(es: seq<Entry>, k: nat, id: string)
    requires k <= |es| && id in NamesFrom(es[..k]) && NamesFrom(es[..k])[id] != NA
    ensures id in NamesFrom(es) && NamesFrom(es)[id] == NamesFrom(es[..k])[id]
  {
    if k == |es| {
      assert es[..k] == es;
    } else {
      var n := |es| - 1;
      var p := es[..n];
      assert p[..k] == es[..k];
      RealNameSticky(p, k, id);
    }
  }

  /** While every entry seen for an ID carries a placeholder name, the ID is
      absent or mapped to the sentinel. */
  lemma {:induction false} OnlyPlaceholdersGiveSentinel(es: seq<Entry>, id: string)
    requires forall j | 0 <= j < |es| :: es[j].cid == id ==> IsPlaceholder(es[j].cname)
    ensures id in NamesFrom(es) ==> NamesFrom(es)[id] == NA
  {
    if es != [] {
      var n := |es| - 1;
      var p := es[..n];
      forall j | 0 <= j < |p| && p[j].cid == id ensures IsPlaceholder(p[j].cname) {
        assert p[j] == es[j];
      }
      OnlyPlaceholdersGiveSentinel(p, id);
    }
  }

  /** The first entry of an ID with a real name stores that name. */
  lemma {:induction false} FirstRealNameAdds(es: seq<Entry>, i: nat)
    requires i < |es| && es[i].cid != "" && !IsPlaceholder(es[i].cname)
    requires forall j | 0 <= j < i :: es[j].cid == es[i].cid ==> IsPlaceholder(es[j].cname)
    ensures es[i].cid in NamesFrom(es[..i + 1])
    ensures NamesFrom(es[..i + 1])[es[i].cid] == es[i].cname
  {
    var id := es[i].cid;
    var p := es[..i];
    forall j | 0 <= j < |p| && p[j].cid == id ensures IsPlaceholder(p[j].cname) {
      assert p[j] == es[j];
    }
    OnlyPlaceholdersGiveSentinel(p, id);
    NamesFromStep(es, i);
  }

  /** The first real name wins: if entry `i` is the first entry for its ID
      whose name is real, the lookup maps the ID to that name. */
  lemma {:induction false} FirstRealNameWins(es: seq<Entry>, i: nat)
    requires i < |es| && es[i].cid != "" && !IsPlaceholder(es[i].cname)
    requires forall j | 0 <= j < i :: es[j].cid == es[i].cid ==> IsPlaceholder(es[j].cname)
    ensures es[i].cid in NamesFrom(es)
    ensures NamesFrom(es)[es[i].cid] == es[i].cname
  {
    FirstRealNameAdds(es, i);
    RealNameSticky(es, i + 1, es[i].cid);
  }

  /** An entry with a real name leaves its ID mapped to a real name. */
  lemma {:induction false} RealNameEntryGivesRealName(es: seq<Entry>, j: nat)
    requires j < |es| && es[j].cid != "" && !IsPlaceholder(es[j].cname)
    ensures es[j].cid in NamesFrom(es)
    ensures NamesFrom(es)[es[j].cid] != NA
  {
    var id := es[j].cid;
    NamesFromStep(es, j);
    RealNameSticky(es, j + 1, id);
  }

  /** The sentinel rule: a present ID maps to "#NA" iff every one of its
      entries carries an empty (or literally "#NA") name. */
  lemma {:induction false} SentinelIffNoRealName(es: seq<Entry>, id: string)
    requires id in NamesFrom(es)
    ensures NamesFrom(es)[id] == NA <==>
              forall j | 0 <= j < |es| :: es[j].cid == id ==> IsPlaceholder(es[j].cname)
  {
    if !forall j | 0 <= j < |es| :: es[j].cid == id ==> IsPlaceholder(es[j].cname) {
      var j :| 0 <= j < |es| && es[j].cid == id && !IsPlaceholder(es[j].cname);
      KeyHasEntry(es, id);
      RealNameEntryGivesRealName(es, j);
    } else {
      OnlyPlaceholdersGiveSentinel(es, id);
    }
  }

  /** Reading a prefix of the table gives the same prefix of the entries, so
      the lookup after `k` rows is the fold over the first `k` entries. */
  lemma ReadEntriesPrefix(rows: seq<Row>, k: nat)
    requires k <= |rows|
    ensures ReadEntries(rows[..k]) == ReadEntries(rows)[..k]
    ensures NamesOf(rows[..k]) == NamesFrom(ReadEntries(rows)[..k])
  {
  }

  /** `RealNameSticky` over the table: once the rows read so far give an ID
      a real name, the remaining rows never change it. */
  lemma RealNameStickyRows(rows: seq<Row>, k: nat, id: string)
    requires k <= |rows| && id in NamesOf(rows[..k]) && NamesOf(rows[..k])[id] != NA
    ensures id in NamesOf(rows) && NamesOf(rows)[id] == NamesOf(rows[..k])[id]
  {
    ReadEntriesPrefix(rows, k);
    RealNameSticky(ReadEntries(rows), k, id);
  }

  /** `SentinelIffNoRealName` over the table: a present ID maps to "#NA" iff
      every row with that trimmed ID has an empty (or literally "#NA")
      trimmed customer name. */
  lemma SentinelIffNoRealNameRows(rows: seq<Row>, id: string)
    requires id in NamesOf(rows)
    ensures NamesOf(rows)[id] == NA <==>
              forall j | 0 <= j < |rows| :: ReadEntry(rows[j]).cid == id ==> IsPlaceholder(ReadEntry(rows[j]).cname)
  {
    var es := ReadEntries(rows);
    SentinelIffNoRealName(es, id);
    assert forall j | 0 <= j < |rows| :: es[j] == ReadEntry(rows[j]);
  }
}
