/**
 * Keyword tables as the keyword service returns them, the search volume of
 * a page, and the loop that fetches one table per page.
 */
module Keywords {
  import opened Wrappers

  /** One cell of a numeric column: a number, or missing (`NaN`). */
  datatype Cell = Missing | Number(n: int)

  /** A keyword table: its columns by name. A failed fetch gives the empty
      table, which has no columns at all. */
  datatype Table = Table(columns: map<string, seq<Cell>>)

  /** The names under which the keyword service reports search volume, in
      the order they are tried. */
  const VOLUME_ALIASES: seq<string> := ["volume", "Search Volume", "search_volume"]

  /** `next((c for c in aliases if c in columns), None)`: the first alias
      that names a column. */
  function FirstPresent(aliases: seq<string>, t: Table): (c: Option<string>)
    ensures c.None? <==> forall i :: 0 <= i < |aliases| ==> aliases[i] !in t.columns
    ensures c.Some? ==> exists i ::
              && 0 <= i < |aliases| && c.value == aliases[i] && c.value in t.columns
              && forall j :: 0 <= j < i ==> aliases[j] !in t.columns
  {
    if aliases == [] then None
    else if aliases[0] in t.columns then Some(aliases[0])
    else
      var rest := FirstPresent(aliases[1..], t);
      assert rest.Some? ==> exists i ::
               && 0 < i < |aliases| && rest.value == aliases[i]
               && forall j :: 0 <= j < i ==> aliases[j] !in t.columns by {
        if rest.Some? {
          var i :| 0 <= i < |aliases| - 1 && rest.value == aliases[1..][i]
            && forall j :: 0 <= j < i ==> aliases[1..][j] !in t.columns;
          assert forall j :: 0 <= j < i + 1 ==> aliases[j] !in t.columns by {
            forall j | 0 <= j < i + 1 ensures aliases[j] !in t.columns {
              if j > 0 {
                assert aliases[j] == aliases[1..][j - 1];
              }
            }
          }
        }
      }
      rest
  }

  /** The column that holds a table's search volume, if any. */
  function VolumeColumn(t: Table): (c: Option<string>)
    ensures c.None? <==> forall i :: 0 <= i < |VOLUME_ALIASES| ==> VOLUME_ALIASES[i] !in t.columns
    ensures c.Some? ==> c.value in t.columns && c.value in VOLUME_ALIASES
  {
    FirstPresent(VOLUME_ALIASES, t)
  }

  /** `.fillna(0)`: missing cells become 0. */
  function FillMissing(cells: seq<Cell>): (r: seq<int>)
    ensures |r| == |cells|
    ensures forall i :: 0 <= i < |cells| ==> r[i] == (if cells[i].Number? then cells[i].n else 0)
  {
    seq(|cells|, i requires 0 <= i < |cells| => if cells[i].Number? then cells[i].n else 0)
  }

  /** The sum of a column of integers. */
  function Sum(xs: seq<int>): int {
    if xs == [] then 0 else xs[0] + Sum(xs[1..])
  }

  /** A sum of non-negative terms is non-negative. */
  lemma {:induction false} SumNonNegative(xs: seq<int>)
    requires forall i :: 0 <= i < |xs| ==> xs[i] >= 0
    ensures Sum(xs) >= 0
  {
    if xs != [] {
      SumNonNegative(xs[1..]);
    }
  }

  /** `int(kdf[vol_col].fillna(0).sum()) if vol_col else 0`. */
  function PageVolume(t: Table): (v: int)
    ensures (forall i :: 0 <= i < |VOLUME_ALIASES| ==> VOLUME_ALIASES[i] !in t.columns) ==> v == 0
  {
    match VolumeColumn(t)
    case None => 0
    case Some(c) => Sum(FillMissing(t.columns[c]))
  }

  /** The volume is read from the first alias present, missing cells count
      as zero, and a table with none of the aliases has volume 0. */
  lemma {:induction false} PageVolumeResolved(t: Table)
    ensures PageVolume(t) == (
      if "volume" in t.columns then Sum(FillMissing(t.columns["volume"]))
      else if "Search Volume" in t.columns then Sum(FillMissing(t.columns["Search Volume"]))
      else if "search_volume" in t.columns then Sum(FillMissing(t.columns["search_volume"]))
      else 0)
  {
    var a := VOLUME_ALIASES;
    assert a[0] == "volume" && a[1..][0] == "Search Volume" && a[1..][1..][0] == "search_volume";
    assert a[1..][1..][1..] == [];
  }

  /** A failed fetch gives the empty table, whose volume is 0. */
  lemma {:induction false} EmptyTableVolume()
    ensures PageVolume(Table(map[])) == 0
  {
    PageVolumeResolved(Table(map[]));
  }

  /** The volume of a table whose volume cells are all non-negative or
      missing is non-negative. */
  lemma {:induction false} PageVolumeNonNegative(t: Table)
    requires forall c, i ::
               c in t.columns && 0 <= i < |t.columns[c]| && t.columns[c][i].Number? ==> t.columns[c][i].n >= 0
    ensures PageVolume(t) >= 0
  {
    match VolumeColumn(t)
    case None =>
    case Some(c) =>
      SumNonNegative(FillMissing(t.columns[c]));
  }

  /** The dictionary `results` filled by the fetch loop: its keys in
      insertion order, and the table stored under each. */
  datatype Frames = Frames(order: seq<string>, tables: map<string, Table>)

  /** The keys are listed once each, and they are exactly the stored keys. */
  ghost predicate ValidFrames(f: Frames) {
    && (forall i, j :: 0 <= i < j < |f.order| ==> f.order[i] != f.order[j])
    && (forall p :: p in f.tables <==> p in f.order)
  }

  /** `progress_fetch_keywords` without the progress bar: `fetch` is called
      for each page in turn and its table stored under that page. */
  method FetchAll(pages: seq<string>, fetch: string -> Table) returns (results: Frames)
    ensures ValidFrames(results)
    ensures forall p :: p in results.tables <==> p in pages
    ensures forall p :: p in results.tables ==> results.tables[p] == fetch(p)
    ensures (forall i, j :: 0 <= i < j < |pages| ==> pages[i] != pages[j]) ==> results.order == pages
  {
    results := Frames([], map[]);
    for i := 0 to |pages|
      invariant ValidFrames(results)
      invariant forall p :: p in results.tables <==> p in pages[..i]
      invariant forall p :: p in results.tables ==> results.tables[p] == fetch(p)
      invariant (forall k, l :: 0 <= k < l < |pages| ==> pages[k] != pages[l]) ==> results.order == pages[..i]
    {
      var page := pages[i];
      var table := fetch(page);
      var order := if page in results.tables then results.order else results.order + [page];
      results := Frames(order, results.tables[page := table]);
      assert pages[..i + 1] == pages[..i] + [page];
    }
    assert pages[..|pages|] == pages;
  }
}
