/**
 * The sequence of `main` between the page generator's reply and the
 * spreadsheet: parse the manual pages, merge them with the generated ones,
 * fetch a keyword table per page, build the index sheet and name the
 * per-page sheets.
 */
module Plan {
  import opened Wrappers
  import opened Text
  import opened Pages
  import opened Keywords
  import opened Summary

  /** Pages whose lowercase keys differ are different strings. */
  lemma {:induction false} DistinctKeysDistinct(s: seq<string>)
    requires DistinctKeys(s)
    ensures forall i, j :: 0 <= i < j < |s| ==> s[i] != s[j]
  {
    forall i, j | 0 <= i < j < |s| ensures s[i] != s[j] {
      assert Lower(s[i]) != Lower(s[j]);
    }
  }

  /** The projections BuildIndex states of the page rows, read off the whole
      index. */
  lemma PageRowsDerived(index: seq<Row>, n: nat)
    requires n <= |index|
    requires forall i :: 0 <= i < n ==> index[..n][i].traffic == PotentialTraffic(index[..n][i].volume)
    requires forall i :: 0 <= i < n ==> index[..n][i].signups == EstSignups(index[..n][i].traffic)
    ensures forall i :: 0 <= i < n ==>
              index[i].traffic == PotentialTraffic(index[i].volume) && index[i].signups == EstSignups(index[i].traffic)
  {
    forall i | 0 <= i < n
      ensures index[i].traffic == PotentialTraffic(index[i].volume) && index[i].signups == EstSignups(index[i].traffic)
    {
      assert index[..n][i] == index[i];
    }
  }

  /** The names of the per-page sheets, one per fetched page in the
      dictionary's order. */
  method SheetNames(frames: Frames) returns (sheets: seq<string>)
    ensures |sheets| == |frames.order|
    ensures forall i :: 0 <= i < |sheets| ==> sheets[i] == SheetName(frames.order[i])
    ensures forall i :: 0 <= i < |sheets| ==> |sheets[i]| <= MAX_SHEET_NAME && sheets[i] <= frames.order[i]
  {
    sheets := [];
    for i := 0 to |frames.order|
      invariant |sheets| == i
      invariant forall k :: 0 <= k < i ==> sheets[k] == SheetName(frames.order[k])
    {
      sheets := sheets + [SheetName(frames.order[i])];
    }
  }

  /** One run: the child-page limit sent to the page generator, and, once
      it has replied with `generated`, the merged pages (no cap), their
      tables, the index sheet with the 10% and 4% projections, and the sheet
      names. */
  method Run(maxChildren: int, manualInput: string, generated: seq<string>, fetch: string -> Table)
    returns (limit: int, pages: seq<string>, frames: Frames, index: seq<Row>, sheets: seq<string>)
    ensures MIN_CHILDREN <= limit <= MAX_CHILDREN && limit == ClampChildren(maxChildren)
    ensures pages == MergeSpec(ParsePagesInput(Strip(manualInput)), generated, None)
    ensures DistinctKeys(pages)
    ensures ValidFrames(frames) && frames.order == pages
    ensures forall p :: p in frames.tables ==> frames.tables[p] == fetch(p)
    ensures |index| == |pages| + 1
    ensures SortedByVolume(EntriesOf(index[..|pages|]))
    ensures multiset(EntriesOf(index[..|pages|])) == multiset(PageEntries(frames))
    ensures forall i :: 0 <= i < |pages| ==>
              index[i].traffic == PotentialTraffic(index[i].volume) && index[i].signups == EstSignups(index[i].traffic)
    ensures index[|pages|] == TotalRow(index[..|pages|])
    ensures index[|pages|] == TotalRow(AddDerived(PageEntries(frames), PotentialTraffic, EstSignups))
    ensures pages == [] ==> index == [Row(TOTAL_LABEL, 0, 0, 0)]
    ensures |sheets| == |pages| && forall i :: 0 <= i < |pages| ==> sheets[i] == SheetName(pages[i])
  {
    limit := ClampChildren(maxChildren);
    var manualPages := ParsePagesInput(Strip(manualInput));
    pages := MergePages(manualPages, generated, None);
    DistinctKeysDistinct(pages);
    frames := FetchAll(pages, fetch);
    index := BuildIndex(frames, PotentialTraffic, EstSignups);
    PageRowsDerived(index, |pages|);
    sheets := SheetNames(frames);
    if pages == [] {
      EmptyIndex(index);
    }
  }
}
