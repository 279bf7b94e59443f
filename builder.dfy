/** The cleaning half of load_data_and_model (streamlit_app.py:46-74): a
    headerless table of string cells becomes the slang-to-meaning dictionary.
    The steps run in the program's order: keep two columns, drop a header row
    read as data, drop repeated raw slangs (first kept), lower-case and strip
    both columns, drop the slang "it", and build the map (a later row
    overwrites an earlier one with the same cleaned slang). */
module Builder {
  import opened Wrappers
  import opened Text
  import opened Seqs

  /** One line of the CSV file, as string cells. */
  type Row = seq<string>

  /** What pd.read_csv(path, header=None) yields: `width` columns, rows in file order. */
  datatype Table = Table(width: nat, rows: seq<Row>)

  predicate Rectangular(t: Table) {
    forall i :: 0 <= i < |t.rows| ==> |t.rows[i]| == t.width
  }

  /** A row once its first two columns are named slang and meaning. */
  datatype Entry = Entry(slang: string, meaning: string)

  /** The header row the file may carry as its first data row. */
  const HeaderRow: Entry := Entry("?", "I have a question")

  /** The one cleaned slang the loader removes. */
  const DeniedSlang: string := "it"

  /** Every key and every meaning is lower case with no surrounding whitespace. */
  predicate CleanDictionary(d: map<string, string>) {
    forall k :: k in d ==> IsClean(k) && IsClean(d[k])
  }

  function FirstTwoColumns(rows: seq<Row>): (entries: seq<Entry>)
    requires forall i :: 0 <= i < |rows| ==> |rows[i]| >= 2
    ensures |entries| == |rows|
    ensures forall i :: 0 <= i < |rows| ==>
      entries[i].slang == rows[i][0] && entries[i].meaning == rows[i][1]
  {
    seq(|rows|, i requires 0 <= i < |rows| => Entry(rows[i][0], rows[i][1]))
  }

  /** Only the first row is compared with the header, before any cleaning. */
  function DropHeaderRow(entries: seq<Entry>): (rest: seq<Entry>)
    requires entries != []
    ensures |entries| - 1 <= |rest| <= |entries|
    ensures rest == entries[|entries| - |rest|..]
    ensures |rest| == |entries| - 1 <==> entries[0] == HeaderRow
    ensures |rest| == |entries| <==> entries[0] != HeaderRow
  {
    if entries[0] == HeaderRow then entries[1..] else entries
  }

  /** The raw slangs of some entries. */
  function Slangs(entries: seq<Entry>): set<string> {
    set e | e in entries :: e.slang
  }

  predicate DistinctSlangs(entries: seq<Entry>) {
    forall i, j :: 0 <= i < j < |entries| ==> entries[i].slang != entries[j].slang
  }

  /** Entry i holds the first occurrence of its raw slang. */
  predicate IsFirst(entries: seq<Entry>, i: int) {
    0 <= i < |entries| && forall j :: 0 <= j < i ==> entries[j].slang != entries[i].slang
  }

  /** drop_duplicates(subset=['slang']) with pandas' default keep='first',
      comparing the raw, uncleaned slang. */
  function DedupSlang(entries: seq<Entry>): (kept: seq<Entry>)
    ensures Slangs(kept) == Slangs(entries)
    ensures DistinctSlangs(kept)
    ensures forall e :: e in kept ==> e in entries
    decreases |entries|
  {
    if entries == [] then []
    else
      var prefix := entries[..|entries| - 1];
      var last := entries[|entries| - 1];
      var earlier := DedupSlang(prefix);
      if last.slang in Slangs(prefix) then earlier
      else
        assert forall e :: e in earlier + [last] ==> e in earlier || e == last;
        assert Slangs(earlier + [last]) == Slangs(earlier) + {last.slang};
        assert Slangs(entries) == Slangs(prefix) + {last.slang} by {
          LastSplit(entries);
        }
        earlier + [last]
  }

  function CleanEntry(e: Entry): (c: Entry)
    ensures IsClean(c.slang) && IsClean(c.meaning)
  {
    Entry(Clean(e.slang), Clean(e.meaning))
  }

  /** The .astype(str).str.lower().str.strip() applied to both columns. */
  function CleanEntries(entries: seq<Entry>): (cleaned: seq<Entry>)
    ensures |cleaned| == |entries|
    ensures forall k :: 0 <= k < |entries| ==> cleaned[k] == CleanEntry(entries[k])
    ensures forall e :: e in cleaned ==> IsClean(e.slang) && IsClean(e.meaning)
  {
    MapSeq(entries, CleanEntry)
  }

  /** df.drop(df[df['slang'] == 'it'].index). */
  function DropDenied(entries: seq<Entry>): (r: seq<Entry>)
    ensures forall e :: e in r <==> e in entries && e.slang != DeniedSlang
    decreases |entries|
  {
    if entries == [] then []
    else
      var prefix := entries[..|entries| - 1];
      var last := entries[|entries| - 1];
      LastSplit(entries);
      if last.slang == DeniedSlang then DropDenied(prefix) else DropDenied(prefix) + [last]
  }

  /** Entry i is the last row with its slang. */
  predicate IsLast(entries: seq<Entry>, i: int) {
    0 <= i < |entries| && forall j :: i < j < |entries| ==> entries[j].slang != entries[i].slang
  }

  /** df.set_index('slang')['meaning'].to_dict(): rows are inserted in order,
      so the last row with a slang supplies its value. */
  function ToDict(entries: seq<Entry>): (d: map<string, string>)
    ensures d.Keys == Slangs(entries)
    ensures forall k :: k in d ==> Entry(k, d[k]) in entries
    decreases |entries|
  {
    if entries == [] then map[]
    else
      var prefix := entries[..|entries| - 1];
      var last := entries[|entries| - 1];
      LastSplit(entries);
      ToDict(prefix)[last.slang := last.meaning]
  }

  /** The steps after header detection (streamlit_app.py:61-70). */
  function Pipeline(entries: seq<Entry>): (d: map<string, string>)
    ensures CleanDictionary(d) && DeniedSlang !in d
  {
    ToDict(DropDenied(CleanEntries(DedupSlang(entries))))
  }

  /** The entries the cleaning sees: the first two columns, header row removed. */
  function DataRows(t: Table): seq<Entry>
    requires Rectangular(t) && t.width >= 2 && t.rows != []
  {
    DropHeaderRow(FirstTwoColumns(t.rows))
  }

  /** The dictionary load_data_and_model returns, None for every `return None`
      path: fewer than two columns, or no row at all (iloc[0] raises and the
      exception handler returns None). */
  function Build(t: Table): (result: Option<map<string, string>>)
    requires Rectangular(t)
    ensures result.None? <==> t.width < 2 || t.rows == []
    ensures result.Some? ==> CleanDictionary(result.value) && DeniedSlang !in result.value
  {
    if t.width < 2 then None
    else if t.rows == [] then None
    else Some(Pipeline(DataRows(t)))
  }

  // ---------------------------------------------------------------------
  // A row-at-a-time reference for the whole cleaning, and its properties.

  /** The dictionary built one row at a time: a row contributes when its raw
      slang has not been seen before and its cleaned slang is not "it", and
      its cleaned pair overwrites any earlier value for the same cleaned slang. */
  function RowByRow(entries: seq<Entry>): map<string, string>
    decreases |entries|
  {
    if entries == [] then map[]
    else
      var prefix := entries[..|entries| - 1];
      var last := entries[|entries| - 1];
      var d := RowByRow(prefix);
      if last.slang in Slangs(prefix) || Clean(last.slang) == DeniedSlang then d
      else d[Clean(last.slang) := Clean(last.meaning)]
  }

  lemma {:induction false} Snoc(prefix: seq<Entry>, last: Entry)
    ensures (prefix + [last])[..|prefix|] == prefix
    ensures (prefix + [last])[|prefix|] == last
    ensures prefix + [last] != []
  {
  }

  lemma {:induction false} DedupSnoc(prefix: seq<Entry>, last: Entry)
    ensures DedupSlang(prefix + [last])
         == if last.slang in Slangs(prefix) then DedupSlang(prefix) else DedupSlang(prefix) + [last]
  {
    Snoc(prefix, last);
  }

  lemma {:induction false} CleanSnoc(prefix: seq<Entry>, last: Entry)
    ensures CleanEntries(prefix + [last]) == CleanEntries(prefix) + [CleanEntry(last)]
  {
    MapSeqSnoc(prefix, last, CleanEntry);
  }

  lemma {:induction false} DropDeniedSnoc(prefix: seq<Entry>, last: Entry)
    ensures DropDenied(prefix + [last])
         == if last.slang == DeniedSlang then DropDenied(prefix) else DropDenied(prefix) + [last]
  {
    Snoc(prefix, last);
  }

  lemma {:induction false} ToDictSnoc(prefix: seq<Entry>, last: Entry)
    ensures ToDict(prefix + [last]) == ToDict(prefix)[last.slang := last.meaning]
  {
    Snoc(prefix, last);
  }

  lemma {:induction false} RowByRowSnoc(prefix: seq<Entry>, last: Entry)
    ensures RowByRow(prefix + [last])
         == if last.slang in Slangs(prefix) || Clean(last.slang) == DeniedSlang then RowByRow(prefix)
            else RowByRow(prefix)[Clean(last.slang) := Clean(last.meaning)]
  {
    Snoc(prefix, last);
  }

  /** kept holds the rows of entries at the positions idx, in order, and idx
      lists exactly the first occurrences of each raw slang. */
  ghost predicate FirstOccurrencesAt(entries: seq<Entry>, kept: seq<Entry>, idx: seq<int>) {
    PicksAt(entries, kept, idx) && forall i :: IsFirst(entries, i) <==> i in idx
  }

  /** drop_duplicates keeps exactly the first row of every raw slang, in input order. */
  lemma {:induction false} DedupKeepsFirsts(entries: seq<Entry>)
    ensures exists idx :: FirstOccurrencesAt(entries, DedupSlang(entries), idx)
    decreases |entries|
  {
    if entries == [] {
      assert DedupSlang(entries) == [];
      assert FirstOccurrencesAt(entries, [], []);
    } else {
      var prefix := entries[..|entries| - 1];
      var last := entries[|entries| - 1];
      LastSplit(entries);
      DedupKeepsFirsts(prefix);
      var kept := DedupSlang(prefix);
      var idx :| FirstOccurrencesAt(prefix, kept, idx);
      DedupSnoc(prefix, last);
      PicksAtSnoc(prefix, kept, idx, last);
      FirstPositionsSnoc(prefix, last, idx);
      if last.slang in Slangs(prefix) {
        assert FirstOccurrencesAt(prefix + [last], kept, idx);
      } else {
        assert FirstOccurrencesAt(prefix + [last], kept + [last], idx + [|prefix|]);
      }
    }
  }

  /** Appending a row adds its position to the first occurrences exactly when
      its raw slang is new. */
  lemma {:induction false} FirstPositionsSnoc(prefix: seq<Entry>, last: Entry, idx: seq<int>)
    requires forall k :: 0 <= k < |idx| ==> 0 <= idx[k] < |prefix|
    requires forall i :: IsFirst(prefix, i) <==> i in idx
    ensures last.slang in Slangs(prefix) ==> forall i :: IsFirst(prefix + [last], i) <==> i in idx
    ensures last.slang !in Slangs(prefix) ==> forall i :: IsFirst(prefix + [last], i) <==> i in idx + [|prefix|]
  {
    forall i ensures IsFirst(prefix + [last], i) <==> (i in idx || (i == |prefix| && last.slang !in Slangs(prefix))) {
      if 0 <= i <= |prefix| {
        IsFirstSnoc(prefix, last, i);
      }
    }
    assert forall i :: i in idx + [|prefix|] <==> i in idx || i == |prefix|;
  }

  /** A single row stays exactly when its slang is not "it". */
  lemma {:induction false} DropDeniedOne(e: Entry)
    ensures DropDenied([e]) == if e.slang == DeniedSlang then [] else [e]
  {
    DropDeniedSnoc([], e);
    assert [] + [e] == [e];
  }

  /** Removing "it" rows keeps order: the rows of a concatenation are
      filtered part by part. */
  lemma {:induction false} DropDeniedAppend(a: seq<Entry>, b: seq<Entry>)
    ensures DropDenied(a + b) == DropDenied(a) + DropDenied(b)
    decreases |b|
  {
    if b == [] {
      assert a + b == a;
      assert DropDenied(b) == [];
      AppendEmpty(DropDenied(a));
    } else {
      var front := b[..|b| - 1];
      var x := b[|b| - 1];
      LastSplit(b);
      DropDeniedAppend(a, front);
      AppendAssoc(a, front, [x]);
      DropDeniedSnoc(a + front, x);
      DropDeniedSnoc(front, x);
      if x.slang != DeniedSlang {
        AppendAssoc(DropDenied(a), DropDenied(front), [x]);
      }
    }
  }

  /** to_dict keeps the last value: the last row with a slang supplies it. */
  lemma {:induction false} ToDictLastWins(entries: seq<Entry>, i: int)
    requires IsLast(entries, i)
    ensures ToDict(entries)[entries[i].slang] == entries[i].meaning
    decreases |entries|
  {
    var prefix := entries[..|entries| - 1];
    var last := entries[|entries| - 1];
    LastSplit(entries);
    ToDictSnoc(prefix, last);
    if i < |prefix| {
      assert IsLast(prefix, i) by {
        assert forall j :: 0 <= j < |prefix| ==> prefix[j] == entries[j];
      }
      ToDictLastWins(prefix, i);
    }
  }

  /** The staged cleaning and the row-at-a-time reference build the same dictionary. */
  lemma {:induction false} PipelineIsRowByRow(entries: seq<Entry>)
    ensures Pipeline(entries) == RowByRow(entries)
    decreases |entries|
  {
    if entries != [] {
      var prefix := entries[..|entries| - 1];
      var last := entries[|entries| - 1];
      LastSplit(entries);
      PipelineIsRowByRow(prefix);
      DedupSnoc(prefix, last);
      RowByRowSnoc(prefix, last);
      if last.slang !in Slangs(prefix) {
        var kept := DedupSlang(prefix);
        CleanSnoc(kept, last);
        var c := CleanEntry(last);
        DropDeniedSnoc(CleanEntries(kept), c);
        if c.slang != DeniedSlang {
          ToDictSnoc(DropDenied(CleanEntries(kept)), c);
        }
      }
    }
  }

  /** The cleaned slangs of some entries, "it" excepted. */
  function CleanSlangs(entries: seq<Entry>): set<string> {
    set e | e in entries && Clean(e.slang) != DeniedSlang :: Clean(e.slang)
  }

  lemma {:induction false} CleanSlangsSnoc(prefix: seq<Entry>, last: Entry)
    ensures CleanSlangs(prefix + [last])
         == CleanSlangs(prefix) + if Clean(last.slang) != DeniedSlang then {Clean(last.slang)} else {}
  {
    assert forall e :: e in prefix + [last] <==> e in prefix || e == last;
  }

  /** A row whose raw slang appeared earlier adds no cleaned slang. */
  lemma {:induction false} RepeatedSlangAddsNoKey(prefix: seq<Entry>, last: Entry)
    requires last.slang in Slangs(prefix)
    ensures CleanSlangs(prefix + [last]) == CleanSlangs(prefix)
  {
    CleanSlangsSnoc(prefix, last);
    var e :| e in prefix && e.slang == last.slang;
    assert Clean(e.slang) != DeniedSlang ==> Clean(e.slang) in CleanSlangs(prefix);
  }

  /** The keys are the cleaned slangs of all rows but "it": removing repeated
      raw slangs never removes a key. */
  lemma {:induction false} RowByRowKeys(entries: seq<Entry>)
    ensures RowByRow(entries).Keys == CleanSlangs(entries)
    decreases |entries|
  {
    if entries != [] {
      var prefix := entries[..|entries| - 1];
      var last := entries[|entries| - 1];
      LastSplit(entries);
      RowByRowKeys(prefix);
      RowByRowSnoc(prefix, last);
      CleanSlangsSnoc(prefix, last);
      if last.slang in Slangs(prefix) {
        RepeatedSlangAddsNoKey(prefix, last);
      }
    }
  }

  lemma {:induction false} IsFirstSnoc(prefix: seq<Entry>, last: Entry, i: int)
    ensures i < |prefix| ==> (IsFirst(prefix + [last], i) <==> IsFirst(prefix, i))
    ensures i == |prefix| ==> (IsFirst(prefix + [last], i) <==> last.slang !in Slangs(prefix))
  {
    var all := prefix + [last];
    assert forall j :: 0 <= j < |prefix| ==> all[j] == prefix[j];
    if i == |prefix| {
      if last.slang in Slangs(prefix) {
        var e :| e in prefix && e.slang == last.slang;
        var j :| 0 <= j < |prefix| && prefix[j] == e;
        assert all[j].slang == all[i].slang;
      } else {
        assert forall j :: 0 <= j < i ==> all[j] in prefix;
      }
    }
  }

  /** The value of a key is the cleaned meaning of the LAST row that survives
      duplicate removal (the first row of its raw slang) and cleans to that key. */
  lemma {:induction false} RowByRowValue(entries: seq<Entry>, i: int)
    requires IsFirst(entries, i)
    requires Clean(entries[i].slang) != DeniedSlang
    requires forall j :: i < j < |entries| && IsFirst(entries, j) ==> Clean(entries[j].slang) != Clean(entries[i].slang)
    ensures Clean(entries[i].slang) in RowByRow(entries)
    ensures RowByRow(entries)[Clean(entries[i].slang)] == Clean(entries[i].meaning)
    decreases |entries|
  {
    var prefix := entries[..|entries| - 1];
    var last := entries[|entries| - 1];
    LastSplit(entries);
    RowByRowSnoc(prefix, last);
    IsFirstSnoc(prefix, last, i);
    if i < |prefix| {
      assert Clean(prefix[i].slang) in RowByRow(prefix)
          && RowByRow(prefix)[Clean(prefix[i].slang)] == Clean(prefix[i].meaning) by {
        forall j | i < j < |prefix| && IsFirst(prefix, j)
          ensures Clean(prefix[j].slang) != Clean(prefix[i].slang)
        {
          IsFirstSnoc(prefix, last, j);
        }
        RowByRowValue(prefix, i);
      }
      IsFirstSnoc(prefix, last, |prefix|);
      assert last.slang !in Slangs(prefix) && Clean(last.slang) != DeniedSlang
         ==> Clean(last.slang) != Clean(prefix[i].slang);
    }
  }

  /** Cleaned slangs that are pairwise different come from raw slangs that are. */
  lemma {:induction false} FreshCleanSlang(prefix: seq<Entry>, last: Entry)
    requires forall j :: 0 <= j < |prefix| ==> Clean(prefix[j].slang) != Clean(last.slang)
    ensures last.slang !in Slangs(prefix)
    ensures Clean(last.slang) !in CleanSlangs(prefix)
  {
    forall e | e in prefix ensures Clean(e.slang) != Clean(last.slang) {
      var j :| 0 <= j < |prefix| && prefix[j] == e;
    }
  }

  /** With no two rows cleaning to the same slang and no "it", every row
      becomes its own entry. */
  lemma {:induction false} RowByRowSize(entries: seq<Entry>)
    requires forall i, j :: 0 <= i < j < |entries| ==> Clean(entries[i].slang) != Clean(entries[j].slang)
    requires forall i :: 0 <= i < |entries| ==> Clean(entries[i].slang) != DeniedSlang
    ensures |RowByRow(entries)| == |entries|
    decreases |entries|
  {
    if entries != [] {
      var prefix := entries[..|entries| - 1];
      var last := entries[|entries| - 1];
      LastSplit(entries);
      assert forall j :: 0 <= j < |prefix| ==> prefix[j] == entries[j];
      RowByRowSize(prefix);
      RowByRowSnoc(prefix, last);
      RowByRowKeys(prefix);
      FreshCleanSlang(prefix, last);
    }
  }

  // ---------------------------------------------------------------------
  // The properties of Build.

  /** Only columns 0 and 1 are read, and only the first row is compared with
      the header row: it is dropped exactly when it equals ("?", "I have a
      question") before cleaning; every other row is kept in order. */
  lemma {:induction false} DataRowsShape(t: Table)
    requires Rectangular(t) && t.width >= 2 && t.rows != []
    ensures var skip := if t.rows[0][0] == "?" && t.rows[0][1] == "I have a question" then 1 else 0;
            |DataRows(t)| == |t.rows| - skip &&
            forall i :: 0 <= i < |DataRows(t)| ==> DataRows(t)[i] == Entry(t.rows[i + skip][0], t.rows[i + skip][1])
  {
  }

  /** Two tables that agree on their first two columns build the same dictionary. */
  lemma {:induction false} BuildReadsTwoColumns(t: Table, u: Table)
    requires Rectangular(t) && Rectangular(u)
    requires t.width >= 2 && u.width >= 2 && |t.rows| == |u.rows|
    requires forall i :: 0 <= i < |t.rows| ==> t.rows[i][0] == u.rows[i][0] && t.rows[i][1] == u.rows[i][1]
    ensures Build(t) == Build(u)
  {
    assert FirstTwoColumns(t.rows) == FirstTwoColumns(u.rows);
  }

  /** The keys of the built dictionary are the cleaned slangs of the data rows, "it" excepted. */
  lemma {:induction false} BuildKeys(t: Table)
    requires Rectangular(t) && t.width >= 2 && t.rows != []
    ensures Build(t).Some? && Build(t).value.Keys == CleanSlangs(DataRows(t))
  {
    PipelineIsRowByRow(DataRows(t));
    RowByRowKeys(DataRows(t));
  }

  /** A data row that is the first of its raw slang gives its key its cleaned
      meaning unless a later such row cleans to the same key. */
  lemma {:induction false} BuildValue(t: Table, i: int)
    requires Rectangular(t) && t.width >= 2 && t.rows != []
    requires IsFirst(DataRows(t), i) && Clean(DataRows(t)[i].slang) != DeniedSlang
    requires forall j :: i < j < |DataRows(t)| && IsFirst(DataRows(t), j) ==>
               Clean(DataRows(t)[j].slang) != Clean(DataRows(t)[i].slang)
    ensures Build(t).Some?
    ensures Clean(DataRows(t)[i].slang) in Build(t).value
    ensures Build(t).value[Clean(DataRows(t)[i].slang)] == Clean(DataRows(t)[i].meaning)
  {
    PipelineIsRowByRow(DataRows(t));
    RowByRowValue(DataRows(t), i);
  }

  /** When no two data rows clean to the same slang and none cleans to "it",
      the dictionary has one entry per data row: the row count less the
      header row if there was one. */
  lemma {:induction false} BuildSize(t: Table)
    requires Rectangular(t) && t.width >= 2 && t.rows != []
    requires forall i, j :: 0 <= i < j < |DataRows(t)| ==> Clean(DataRows(t)[i].slang) != Clean(DataRows(t)[j].slang)
    requires forall i :: 0 <= i < |DataRows(t)| ==> Clean(DataRows(t)[i].slang) != DeniedSlang
    ensures Build(t).Some? && |Build(t).value| == |DataRows(t)|
  {
    PipelineIsRowByRow(DataRows(t));
    RowByRowSize(DataRows(t));
  }
}
