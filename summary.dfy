/**
 * The "Index" sheet: one row per fetched page with its search volume and
 * the two projections derived from it, sorted by volume, followed by a
 * single "Total" row.
 */
module Summary {
  import opened Wrappers
  import opened Keywords

  /** A row of the index sheet: "Page type", "Search volume",
      "Potential traffic (10%)" and "Est signups (4%)". */
  datatype Row = Row(page: string, volume: int, traffic: int, signups: int)

  /** A row before the derived columns are added. */
  datatype Entry = Entry(page: string, volume: int)

  const TOTAL_LABEL := "Total"

  // ---------------------------------------------------------------------------
  // The two projections
  // ---------------------------------------------------------------------------

  /** `round(n / d)` with ties to the even neighbour, as `.round()` rounds. */
  function RoundHalfEven(n: int, d: int): (r: int)
    requires d > 0
    ensures -d <= 2 * (n - r * d) <= d
    ensures (2 * (n - r * d) == d || 2 * (n - r * d) == -d) ==> r % 2 == 0
  {
    var q, rem := n / d, n % d;
    assert n - q * d == rem;
    assert n - (q + 1) * d == rem - d;
    if 2 * rem < d then q
    else if 2 * rem > d then q + 1
    else if q % 2 == 0 then q
    else q + 1
  }

  /** "Potential traffic (10%)": 10% of the volume, rounded. */
  function PotentialTraffic(volume: int): (t: int)
    ensures -10 <= 2 * (volume - 10 * t) <= 10
    ensures volume >= 0 ==> t >= 0
  {
    RoundHalfEven(volume, 10)
  }

  /** "Est signups (4%)": 4% of the already rounded traffic, rounded. */
  function EstSignups(traffic: int): (s: int)
    ensures -100 <= 2 * (4 * traffic - 100 * s) <= 100
    ensures traffic >= 0 ==> s >= 0
  {
    RoundHalfEven(4 * traffic, 100)
  }

  // ---------------------------------------------------------------------------
  // Sorting by volume
  // ---------------------------------------------------------------------------

  /** Non-increasing search volume. */
  predicate SortedByVolume(es: seq<Entry>) {
    forall i, j :: 0 <= i < j < |es| ==> es[i].volume >= es[j].volume
  }

  function InsertByVolume(e: Entry, sorted: seq<Entry>): (r: seq<Entry>)
    requires SortedByVolume(sorted)
    ensures SortedByVolume(r)
    ensures multiset(r) == multiset(sorted) + multiset{e}
    ensures |r| == |sorted| + 1
    ensures r[0] == e || (sorted != [] && r[0] == sorted[0])
  {
    if sorted == [] || e.volume >= sorted[0].volume then
      ConsSorted(e, sorted);
      [e] + sorted
    else
      var rest := InsertByVolume(e, sorted[1..]);
      assert sorted == [sorted[0]] + sorted[1..];
      ConsSorted(sorted[0], rest);
      [sorted[0]] + rest
  }

  /** An entry with at least the volume of the head of a sorted list can go
      in front of it. */
  lemma ConsSorted(e: Entry, es: seq<Entry>)
    requires SortedByVolume(es)
    requires es == [] || e.volume >= es[0].volume
    ensures SortedByVolume([e] + es)
  {
    var r := [e] + es;
    forall i, j | 0 <= i < j < |r| ensures r[i].volume >= r[j].volume {
      if i > 0 {
        assert r[i] == es[i - 1] && r[j] == es[j - 1];
      } else {
        assert r[j] == es[j - 1];
      }
    }
  }

  /** `sort_values("Search volume", ascending=False)`: the same rows, by
      non-increasing volume. */
  function SortByVolume(es: seq<Entry>): (r: seq<Entry>)
    ensures SortedByVolume(r)
    ensures multiset(r) == multiset(es)
    ensures |r| == |es|
  {
    if es == [] then []
    else
      assert es == [es[0]] + es[1..];
      InsertByVolume(es[0], SortByVolume(es[1..]))
  }

  // ---------------------------------------------------------------------------
  // The index sheet
  // ---------------------------------------------------------------------------

  /** One entry per fetched page, in the dictionary's order, with the
      page's search volume. */
  ghost function PageEntries(frames: Frames): (es: seq<Entry>)
    requires ValidFrames(frames)
    ensures |es| == |frames.order|
  {
    seq(|frames.order|, k requires 0 <= k < |frames.order| =>
      Entry(frames.order[k], PageVolume(frames.tables[frames.order[k]])))
  }

  /** The page row of an entry: traffic from the volume, signups from the
      rounded traffic. */
  function Derive(e: Entry, traffic: int -> int, signups: int -> int): (r: Row)
    ensures r.page == e.page && r.volume == e.volume
    ensures r.traffic == traffic(e.volume) && r.signups == signups(r.traffic)
  {
    var t := traffic(e.volume);
    Row(e.page, e.volume, t, signups(t))
  }

  /** The two derived columns, added to every entry. */
  function AddDerived(es: seq<Entry>, traffic: int -> int, signups: int -> int): (rows: seq<Row>)
    ensures |rows| == |es|
    ensures forall i :: 0 <= i < |es| ==> rows[i] == Derive(es[i], traffic, signups)
  {
    seq(|es|, i requires 0 <= i < |es| => Derive(es[i], traffic, signups))
  }

  /** The entries of rows, without the derived columns. */
  function EntriesOf(rows: seq<Row>): (es: seq<Entry>)
    ensures |es| == |rows|
    ensures forall i :: 0 <= i < |rows| ==> es[i] == Entry(rows[i].page, rows[i].volume)
  {
    seq(|rows|, i requires 0 <= i < |rows| => Entry(rows[i].page, rows[i].volume))
  }

  /** The sum of one column. */
  function SumBy(rows: seq<Row>, column: Row -> int): int {
    if rows == [] then 0 else column(rows[0]) + SumBy(rows[1..], column)
  }

  /** The "Total" row: the column-wise sums of the page rows. */
  function TotalRow(rows: seq<Row>): (total: Row)
    ensures total.page == TOTAL_LABEL
    ensures rows == [] ==> total == Row(TOTAL_LABEL, 0, 0, 0)
  {
    Row(TOTAL_LABEL, SumBy(rows, (r: Row) => r.volume), SumBy(rows, (r: Row) => r.traffic),
        SumBy(rows, (r: Row) => r.signups))
  }

  /** Field-wise addition of the numeric columns. */
  function Plus(a: Row, b: Row): Row {
    Row(TOTAL_LABEL, a.volume + b.volume, a.traffic + b.traffic, a.signups + b.signups)
  }

  lemma {:induction false} TotalCons(r: Row, rows: seq<Row>)
    ensures TotalRow([r] + rows) == Plus(r, TotalRow(rows))
  {
    assert ([r] + rows)[1..] == rows;
  }

  /** The total of a non-empty list of derived rows: the first row plus the
      total of the rest. */
  lemma TotalHead(es: seq<Entry>, traffic: int -> int, signups: int -> int)
    requires es != []
    ensures TotalRow(AddDerived(es, traffic, signups))
         == Plus(Derive(es[0], traffic, signups), TotalRow(AddDerived(es[1..], traffic, signups)))
  {
    var rows := AddDerived(es, traffic, signups);
    assert rows[1..] == AddDerived(es[1..], traffic, signups);
    assert rows == [rows[0]] + rows[1..];
    TotalCons(rows[0], rows[1..]);
  }

  lemma {:induction false} InsertTotal(e: Entry, sorted: seq<Entry>, traffic: int -> int, signups: int -> int)
    requires SortedByVolume(sorted)
    ensures TotalRow(AddDerived(InsertByVolume(e, sorted), traffic, signups))
         == Plus(Derive(e, traffic, signups), TotalRow(AddDerived(sorted, traffic, signups)))
  {
    var r := InsertByVolume(e, sorted);
    TotalHead(r, traffic, signups);
    if sorted == [] || e.volume >= sorted[0].volume {
      assert r[0] == e && r[1..] == sorted;
    } else {
      var rest := InsertByVolume(e, sorted[1..]);
      assert r[0] == sorted[0] && r[1..] == rest;
      InsertTotal(e, sorted[1..], traffic, signups);
      TotalHead(sorted, traffic, signups);
    }
  }

  /** Sorting the entries does not change the "Total" row. */
  lemma {:induction false} SortTotal(es: seq<Entry>, traffic: int -> int, signups: int -> int)
    ensures TotalRow(AddDerived(SortByVolume(es), traffic, signups)) == TotalRow(AddDerived(es, traffic, signups))
  {
    if es != [] {
      var rest := SortByVolume(es[1..]);
      assert SortByVolume(es) == InsertByVolume(es[0], rest);
      SortTotal(es[1..], traffic, signups);
      InsertTotal(es[0], rest, traffic, signups);
      TotalHead(es, traffic, signups);
    }
  }

  /** The loop over the fetched pages that reads each page's volume. */
  method CollectEntries(frames: Frames) returns (rows: seq<Entry>)
    requires ValidFrames(frames)
    ensures rows == PageEntries(frames)
  {
    rows := [];
    for i := 0 to |frames.order|
      invariant rows == PageEntries(frames)[..i]
    {
      var page := frames.order[i];
      var kdf := frames.tables[page];
      rows := rows + [Entry(page, PageVolume(kdf))];
    }
  }

  /** The index construction of `main`: one entry per fetched page, sorted by
      non-increasing volume, the derived columns added, then one "Total" row
      of column-wise sums. */
  method BuildIndex(frames: Frames, traffic: int -> int, signups: int -> int) returns (index: seq<Row>)
    requires ValidFrames(frames)
    ensures |index| == |frames.order| + 1
    ensures var pages := index[..|frames.order|];
      && SortedByVolume(EntriesOf(pages))
      && multiset(EntriesOf(pages)) == multiset(PageEntries(frames))
      && (forall i :: 0 <= i < |pages| ==> pages[i].traffic == traffic(pages[i].volume))
      && (forall i :: 0 <= i < |pages| ==> pages[i].signups == signups(pages[i].traffic))
      && index[|frames.order|] == TotalRow(pages)
    ensures index[|frames.order|] == TotalRow(AddDerived(PageEntries(frames), traffic, signups))
  {
    var rows := CollectEntries(frames);
    var pages := AddDerived(SortByVolume(rows), traffic, signups);
    index := pages + [TotalRow(pages)];
    assert index[..|frames.order|] == pages;
    IndexOfEntries(frames, traffic, signups);
  }

  /** What the index built from the fetched pages' entries satisfies. */
  lemma {:induction false} IndexOfEntries(frames: Frames, traffic: int -> int, signups: int -> int)
    requires ValidFrames(frames)
    ensures var es := PageEntries(frames);
      var pages := AddDerived(SortByVolume(es), traffic, signups);
      && SortedByVolume(EntriesOf(pages))
      && multiset(EntriesOf(pages)) == multiset(es)
      && TotalRow(pages) == TotalRow(AddDerived(es, traffic, signups))
  {
    var es := PageEntries(frames);
    var sorted := SortByVolume(es);
    assert EntriesOf(AddDerived(sorted, traffic, signups)) == sorted;
    SortTotal(es, traffic, signups);
  }

  /** Every page row names a fetched page and carries that page's volume. */
  lemma {:induction false} IndexRowsArePages(frames: Frames, pages: seq<Row>)
    requires ValidFrames(frames)
    requires multiset(EntriesOf(pages)) == multiset(PageEntries(frames))
    ensures |pages| == |frames.order|
    ensures forall i :: 0 <= i < |pages| ==>
      pages[i].page in frames.tables && pages[i].volume == PageVolume(frames.tables[pages[i].page])
    ensures forall p :: p in frames.tables ==> exists i :: 0 <= i < |pages| && pages[i].page == p
  {
    var es := PageEntries(frames);
    assert |EntriesOf(pages)| == |es| by {
      assert |multiset(EntriesOf(pages))| == |multiset(es)|;
    }
    forall i | 0 <= i < |pages|
      ensures pages[i].page in frames.tables && pages[i].volume == PageVolume(frames.tables[pages[i].page])
    {
      assert EntriesOf(pages)[i] in multiset(es);
      var k :| 0 <= k < |es| && es[k] == EntriesOf(pages)[i];
    }
    forall p | p in frames.tables
      ensures exists i :: 0 <= i < |pages| && pages[i].page == p
    {
      var k :| 0 <= k < |frames.order| && frames.order[k] == p;
      assert es[k] in multiset(EntriesOf(pages));
      var i :| 0 <= i < |pages| && EntriesOf(pages)[i] == es[k];
    }
  }

  /** `pd.DataFrame(rows).sort_values("Search volume", ascending=False)` as
      the code is written: a frame built from no records has no columns at
      all, so sorting it by "Search volume" raises `KeyError` (`None` here). */
  function SortRowsAsWritten(rows: seq<Entry>): (r: Option<seq<Entry>>)
    ensures r.None? <==> rows == []
    ensures r.Some? ==> SortedByVolume(r.value) && multiset(r.value) == multiset(rows)
  {
    var columns: set<string> := if rows == [] then {} else {"Page type", "Search volume"};
    if "Search volume" !in columns then None else Some(SortByVolume(rows))
  }

  /** With no fetched page the code as written raises, although the summary
      printed after the export reads the "Total" row and counts
      `len(index_df) - 1` pages, so it expects a sheet holding that row. */
  lemma {:induction false} EmptyFramesRaise()
    ensures ValidFrames(Frames([], map[]))
    ensures SortRowsAsWritten(PageEntries(Frames([], map[]))) == None
  {
  }

  /** With no fetched page the index holds only an all-zero "Total" row. */
  lemma {:induction false} EmptyIndex(index: seq<Row>)
    requires |index| == 1 && index[0] == TotalRow(index[..0])
    ensures index == [Row(TOTAL_LABEL, 0, 0, 0)]
  {
    assert index[..0] == [];
  }
}
