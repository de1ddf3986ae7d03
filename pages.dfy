/**
 * The page-list side of the planner: parsing the manually typed page list,
 * clamping the requested number of child pages, merging the manual and the
 * generated lists without case-insensitive duplicates, and the name of each
 * page's worksheet.
 */
module Pages {
  import opened Wrappers
  import opened Text

  // ---------------------------------------------------------------------------
  // Manual page list
  // ---------------------------------------------------------------------------

  /** What the manual-list parser promises of each page it returns. */
  predicate IsCleanPage(p: string) {
    && p != []
    && !IsSpace(p[0]) && !IsSpace(p[|p| - 1])
    && ',' !in p && ';' !in p
  }

  /** `[p.strip() for p in parts]`. */
  function StripAll(parts: seq<string>): (r: seq<string>)
    ensures |r| == |parts|
    ensures forall i :: 0 <= i < |parts| ==> r[i] == Strip(parts[i])
  {
    seq(|parts|, i requires 0 <= i < |parts| => Strip(parts[i]))
  }

  /** `[p for p in parts if p]`: the non-empty parts, in order. */
  function NonEmptyOnly(parts: seq<string>): (r: seq<string>)
    ensures |r| <= |parts|
    ensures forall i :: 0 <= i < |r| ==> r[i] != [] && r[i] in parts
    ensures forall p :: p in parts && p != [] ==> p in r
    ensures (forall i :: 0 <= i < |parts| ==> parts[i] != []) ==> r == parts
    ensures |parts| == 1 ==> r == if parts[0] == [] then [] else parts
  {
    if parts == [] then []
    else (if parts[0] == [] then [] else [parts[0]]) + NonEmptyOnly(parts[1..])
  }

  /** The filter works part by part: it keeps order and repeated parts. */
  lemma {:induction false} NonEmptyOnlyAppend(a: seq<string>, b: seq<string>)
    ensures NonEmptyOnly(a + b) == NonEmptyOnly(a) + NonEmptyOnly(b)
    decreases |a|
  {
    if a == [] {
      assert a + b == b;
    } else {
      assert (a + b)[1..] == a[1..] + b;
      NonEmptyOnlyAppend(a[1..], b);
    }
  }

  /** `parse_pages_input`: semicolons count as commas, the text is split at
      commas, each piece is stripped and empty pieces are dropped. */
  function ParsePagesInput(s: string): (pages: seq<string>)
    ensures s == [] ==> pages == []
    ensures forall i :: 0 <= i < |pages| ==> IsCleanPage(pages[i])
  {
    if s == [] then []
    else
      var unified := Replace(s, ';', ',');
      var pieces := Split(unified, ',');
      var stripped := StripAll(pieces);
      StrippedPiecesClean(pieces);
      NonEmptyOnly(stripped)
  }

  /** Stripped separator-free pieces are clean pages once non-empty. */
  lemma StrippedPiecesClean(pieces: seq<string>)
    requires forall i :: 0 <= i < |pieces| ==> ',' !in pieces[i]
    requires forall i, c :: 0 <= i < |pieces| && c in pieces[i] ==> c != ';'
    ensures forall p :: p in StripAll(pieces) && p != [] ==> IsCleanPage(p)
  {
    var stripped := StripAll(pieces);
    forall p | p in stripped && p != [] ensures IsCleanPage(p) {
      var i :| 0 <= i < |stripped| && stripped[i] == p;
      StripChars(pieces[i]);
    }
  }

  /** Pieces free of `,` and `;`, padded or blank, typed with commas between
      them, parse into the stripped pieces that are not blank, in order and
      with repetitions. */
  lemma {:induction false} ParseJoinPieces(pieces: seq<string>)
    requires forall i :: 0 <= i < |pieces| ==> ',' !in pieces[i] && ';' !in pieces[i]
    ensures ParsePagesInput(Join(pieces, ',')) == NonEmptyOnly(StripAll(pieces))
  {
    var s := Join(pieces, ',');
    if pieces == [] {
    } else if |pieces| == 1 && pieces[0] == [] {
      assert StripAll(pieces) == [[]];
    } else {
      assert s != [] by {
        if |pieces| == 1 {
          assert s == pieces[0];
        } else {
          assert s == pieces[0] + [','] + Join(pieces[1..], ',');
        }
      }
      assert forall i :: 0 <= i < |s| ==> s[i] != ';' by {
        forall i | 0 <= i < |s| ensures s[i] != ';' {
          assert s[i] in s;
        }
      }
      assert Replace(s, ';', ',') == s;
      SplitJoin(pieces, ',');
    }
  }

  /** A semicolon separates pages exactly as a comma does: turning every
      `;` into `,` first does not change the parse. */
  lemma SemicolonsAreCommas(s: string)
    ensures ParsePagesInput(s) == ParsePagesInput(Replace(s, ';', ','))
  {
    var unified := Replace(s, ';', ',');
    assert Replace(unified, ';', ',') == unified;
  }

  /** Pieces free of `,` and `;` typed with semicolons between them parse
      like the same pieces typed with commas. */
  lemma ParseSemicolonJoin(pieces: seq<string>)
    requires forall i :: 0 <= i < |pieces| ==> ',' !in pieces[i] && ';' !in pieces[i]
    ensures ParsePagesInput(Join(pieces, ';')) == NonEmptyOnly(StripAll(pieces))
  {
    SemicolonsAreCommas(Join(pieces, ';'));
    ReplaceJoin(pieces, ';', ',');
    ParseJoinPieces(pieces);
  }

  /** Clean pages joined with commas parse back into the same pages. */
  lemma {:induction false} ParseJoin(pages: seq<string>)
    requires forall i :: 0 <= i < |pages| ==> IsCleanPage(pages[i])
    ensures ParsePagesInput(Join(pages, ',')) == pages
  {
    ParseJoinPieces(pages);
    forall i | 0 <= i < |pages| ensures Strip(pages[i]) == pages[i] {
      StripStripped(pages[i]);
    }
    assert StripAll(pages) == pages;
  }

  // ---------------------------------------------------------------------------
  // Child-page limit
  // ---------------------------------------------------------------------------

  const MIN_CHILDREN := 1
  const MAX_CHILDREN := 50

  /** `max(1, min(n, 50))`: the limit sent to the page generator. */
  function ClampChildren(n: int): (r: int)
    ensures MIN_CHILDREN <= r <= MAX_CHILDREN
    ensures MIN_CHILDREN <= n <= MAX_CHILDREN ==> r == n
    ensures n < MIN_CHILDREN ==> r == MIN_CHILDREN
    ensures n > MAX_CHILDREN ==> r == MAX_CHILDREN
  {
    var capped := if n < MAX_CHILDREN then n else MAX_CHILDREN;
    if MIN_CHILDREN > capped then MIN_CHILDREN else capped
  }

  // ---------------------------------------------------------------------------
  // Merging the manual and the generated page lists
  // ---------------------------------------------------------------------------

  /** The lowercase keys of a list of page names. */
  ghost function KeySet(s: seq<string>): set<string> {
    if s == [] then {} else KeySet(s[..|s| - 1]) + {Lower(s[|s| - 1])}
  }

  /** The lowercase keys of the non-empty entries of a list. */
  ghost function NonEmptyKeys(s: seq<string>): set<string> {
    if s == [] then {}
    else NonEmptyKeys(s[..|s| - 1]) + (if s[|s| - 1] == [] then {} else {Lower(s[|s| - 1])})
  }

  /** A key is in `KeySet(s)` exactly when some entry of `s` has it. */
  lemma {:induction false} KeySetMember(s: seq<string>, k: string)
    ensures k in KeySet(s) <==> exists i :: 0 <= i < |s| && Lower(s[i]) == k
  {
    if s != [] {
      var ys := s[..|s| - 1];
      KeySetMember(ys, k);
      if exists i :: 0 <= i < |ys| && Lower(ys[i]) == k {
        var i :| 0 <= i < |ys| && Lower(ys[i]) == k;
        assert s[i] == ys[i];
      }
      if exists i :: 0 <= i < |s| && Lower(s[i]) == k {
        var i :| 0 <= i < |s| && Lower(s[i]) == k;
        if i < |ys| {
          assert ys[i] == s[i];
        }
      }
    }
  }

  /** A key is in `NonEmptyKeys(s)` exactly when some non-empty entry of `s`
      has it. */
  lemma {:induction false} NonEmptyKeysMember(s: seq<string>, k: string)
    ensures k in NonEmptyKeys(s) <==> exists i :: 0 <= i < |s| && s[i] != [] && Lower(s[i]) == k
  {
    if s != [] {
      var ys := s[..|s| - 1];
      NonEmptyKeysMember(ys, k);
      if exists i :: 0 <= i < |ys| && ys[i] != [] && Lower(ys[i]) == k {
        var i :| 0 <= i < |ys| && ys[i] != [] && Lower(ys[i]) == k;
        assert s[i] == ys[i];
      }
      if exists i :: 0 <= i < |s| && s[i] != [] && Lower(s[i]) == k {
        var i :| 0 <= i < |s| && s[i] != [] && Lower(s[i]) == k;
        if i < |ys| {
          assert ys[i] == s[i];
        }
      }
    }
  }

  /** No two entries are equal once lowercased. */
  ghost predicate DistinctKeys(s: seq<string>) {
    forall i, j :: 0 <= i < j < |s| ==> Lower(s[i]) != Lower(s[j])
  }

  /** Entry `i` is non-empty and no earlier entry has its lowercase key. */
  ghost predicate IsFirstOccurrence(xs: seq<string>, i: int)
    requires 0 <= i < |xs|
  {
    xs[i] != [] && forall j :: 0 <= j < i ==> Lower(xs[j]) != Lower(xs[i])
  }

  /** The merge with no cap, one entry of `xs` at a time: an entry is kept
      when it is non-empty and its lowercase key has not been kept before. */
  ghost function Dedup(xs: seq<string>): seq<string>
    decreases |xs|
  {
    if xs == [] then []
    else
      var kept := Dedup(xs[..|xs| - 1]);
      var x := xs[|xs| - 1];
      if x == [] || Lower(x) in KeySet(kept) then kept else kept + [x]
  }

  /** The positions of the first occurrences of the keys of `xs`, in order. */
  ghost function FirstOccurrences(xs: seq<string>): (idx: seq<nat>)
    ensures forall k :: 0 <= k < |idx| ==> idx[k] < |xs| && IsFirstOccurrence(xs, idx[k])
    ensures forall k, l :: 0 <= k < l < |idx| ==> idx[k] < idx[l]
    ensures forall i :: 0 <= i < |xs| && IsFirstOccurrence(xs, i) ==> i in idx
    decreases |xs|
  {
    if xs == [] then []
    else
      var ys := xs[..|xs| - 1];
      var rest := FirstOccurrences(ys);
      assert forall i :: 0 <= i < |ys| ==> (IsFirstOccurrence(ys, i) <==> IsFirstOccurrence(xs, i));
      if IsFirstOccurrence(xs, |ys|) then rest + [|ys|] else rest
  }

  lemma {:induction false} KeySetAppend(s: seq<string>, x: string)
    ensures KeySet(s + [x]) == KeySet(s) + {Lower(x)}
  {
    assert (s + [x])[..|s|] == s;
  }

  lemma {:induction false} NonEmptyKeysAppend(s: seq<string>, x: string)
    ensures NonEmptyKeys(s + [x]) == NonEmptyKeys(s) + (if x == [] then {} else {Lower(x)})
  {
    assert (s + [x])[..|s|] == s;
  }

  /** The keys kept by the merge are exactly the keys of the non-empty
      entries: nothing non-empty is lost, and nothing else appears. */
  lemma {:induction false} DedupKeys(xs: seq<string>)
    ensures KeySet(Dedup(xs)) == NonEmptyKeys(xs)
    decreases |xs|
  {
    if xs != [] {
      var ys, x := xs[..|xs| - 1], xs[|xs| - 1];
      assert xs == ys + [x];
      DedupKeys(ys);
      NonEmptyKeysAppend(ys, x);
      KeySetAppend(Dedup(ys), x);
    }
  }

  /** The merge never keeps an empty entry or two entries with equal keys. */
  lemma {:induction false} DedupDistinct(xs: seq<string>)
    ensures DistinctKeys(Dedup(xs))
    ensures forall i :: 0 <= i < |Dedup(xs)| ==> Dedup(xs)[i] != []
    decreases |xs|
  {
    if xs != [] {
      var ys, x := xs[..|xs| - 1], xs[|xs| - 1];
      DedupDistinct(ys);
      var kept := Dedup(ys);
      if !(x == [] || Lower(x) in KeySet(kept)) {
        KeySetMember(kept, Lower(x));
      }
    }
  }

  /** Processing more entries only extends what has been kept so far. */
  lemma {:induction false} DedupPrefix(xs: seq<string>, ys: seq<string>)
    ensures Dedup(xs) <= Dedup(xs + ys)
    decreases |ys|
  {
    if ys == [] {
      assert xs + ys == xs;
    } else {
      var zs := ys[..|ys| - 1];
      DedupPrefix(xs, zs);
      assert (xs + ys)[..|xs + ys| - 1] == xs + zs;
    }
  }

  /** The entry after `ys` is a first occurrence exactly when the merge of
      `ys` keeps it. */
  lemma {:induction false} FirstOccurrenceStep(ys: seq<string>, x: string)
    ensures IsFirstOccurrence(ys + [x], |ys|) <==> !(x == [] || Lower(x) in KeySet(Dedup(ys)))
  {
    var xs := ys + [x];
    DedupKeys(ys);
    NonEmptyKeysMember(ys, Lower(x));
    if x != [] && Lower(x) in KeySet(Dedup(ys)) {
      var j :| 0 <= j < |ys| && ys[j] != [] && Lower(ys[j]) == Lower(x);
      assert Lower(xs[j]) == Lower(xs[|ys|]);
    }
  }

  /** The merge keeps exactly the first occurrence of every key, with the
      casing of that occurrence, in the order of the input. */
  lemma {:induction false} DedupIsFirstOccurrences(xs: seq<string>)
    ensures |Dedup(xs)| == |FirstOccurrences(xs)|
    ensures forall k :: 0 <= k < |Dedup(xs)| ==> Dedup(xs)[k] == xs[FirstOccurrences(xs)[k]]
    decreases |xs|
  {
    if xs != [] {
      var ys, x := xs[..|xs| - 1], xs[|xs| - 1];
      assert xs == ys + [x];
      DedupIsFirstOccurrences(ys);
      FirstOccurrenceStep(ys, x);
      var idx := FirstOccurrences(ys);
      assert forall k :: 0 <= k < |idx| ==> xs[idx[k]] == ys[idx[k]];
    }
  }

  /** One more entry: the merge keeps it exactly when it is non-empty and its
      key is new. */
  lemma {:induction false} DedupStep(xs: seq<string>, x: string)
    ensures Dedup(xs + [x]) == if x == [] || Lower(x) in KeySet(Dedup(xs)) then Dedup(xs) else Dedup(xs) + [x]
  {
    assert (xs + [x])[..|xs + [x]| - 1] == xs;
  }

  /** Once the entries seen so far fill the cap, the rest cannot change the
      capped merge. */
  lemma {:induction false} DedupCapReached(xs: seq<string>, rest: seq<string>, cap: nat)
    requires |Dedup(xs)| == cap
    ensures Truncate(Dedup(xs + rest), Some(cap)) == Dedup(xs)
  {
    DedupPrefix(xs, rest);
  }

  /** How far a truthy `max_total` lets the merge grow: a positive cap is
      reached at that length; a negative one is reached as soon as one page is
      kept; `None` and 0 are falsy and do not cap. */
  function CapOf(maxTotal: Option<int>): (cap: Option<nat>)
    ensures maxTotal.None? || maxTotal == Some(0) <==> cap.None?
    ensures maxTotal.Some? && maxTotal.value > 0 ==> cap == Some(maxTotal.value)
    ensures maxTotal.Some? && maxTotal.value < 0 ==> cap == Some(1)
  {
    match maxTotal
    case None => None
    case Some(k) => if k == 0 then None else if k > 0 then Some(k) else Some(1)
  }

  /** The first `cap` entries of `s`, or all of them when there is no cap. */
  function Truncate(s: seq<string>, cap: Option<nat>): (r: seq<string>)
    ensures r <= s
    ensures cap.Some? ==> |r| == (if |s| <= cap.value then |s| else cap.value)
    ensures cap.None? ==> r == s
  {
    match cap
    case None => s
    case Some(n) => if |s| <= n then s else s[..n]
  }

  /** What `merge_pages(manual, generated, max_total)` returns. */
  ghost function MergeSpec(manual: seq<string>, generated: seq<string>, maxTotal: Option<int>): (r: seq<string>)
    ensures r <= Dedup(manual + generated)
    ensures CapOf(maxTotal).Some? ==> |r| <= CapOf(maxTotal).value
  {
    Truncate(Dedup(manual + generated), CapOf(maxTotal))
  }

  /** `merge_pages`: manual pages first, then generated ones; empty entries are
      skipped, a page is kept only if its lowercase key is new, and the merge
      stops as soon as a truthy `max_total` is reached. */
  method MergePages(manual: seq<string>, generated: seq<string>, maxTotal: Option<int>)
    returns (merged: seq<string>)
    ensures merged == MergeSpec(manual, generated, maxTotal)
    ensures DistinctKeys(merged)
    ensures forall i :: 0 <= i < |merged| ==> merged[i] != []
    ensures maxTotal.Some? && maxTotal.value > 0 ==> |merged| <= maxTotal.value
    ensures maxTotal.Some? && maxTotal.value < 0 ==> |merged| <= 1
  {
    ghost var all := manual + generated;
    ghost var cap := CapOf(maxTotal);
    merged := [];
    var seen: set<string> := {};
    var sources := [manual, generated];
    ghost var done: seq<string> := [];
    for s := 0 to |sources|
      invariant done == if s == 0 then [] else if s == 1 then manual else all
      invariant merged == Dedup(done)
      invariant seen == KeySet(merged)
      invariant cap.Some? ==> |merged| < cap.value
    {
      var stop;
      merged, seen, stop := MergeList(sources[s], merged, seen, done, maxTotal);
      if stop {
        assert done + sources[s] == (if s == 0 then manual else all);
        if s == 0 {
          DedupPrefix(manual, generated);
        }
        assert Dedup(done + sources[s]) <= Dedup(all);
        assert merged == Truncate(Dedup(all), cap);
        MergeDistinct(manual, generated, maxTotal);
        return;
      }
      done := done + sources[s];
    }
    MergeDistinct(manual, generated, maxTotal);
  }

  /** The inner loop of `merge_pages`, over one of the two lists, continuing
      the merge of the entries `done` before it; `stop` says whether the cap
      was reached, in which case the pages kept so far are the first `cap`
      pages of the merge of `done + list`. */
  method MergeList(list: seq<string>, merged0: seq<string>, seen0: set<string>,
                   ghost done: seq<string>, maxTotal: Option<int>)
    returns (merged: seq<string>, seen: set<string>, stop: bool)
    requires merged0 == Dedup(done) && seen0 == KeySet(merged0)
    requires CapOf(maxTotal).Some? ==> |merged0| < CapOf(maxTotal).value
    ensures stop ==> CapOf(maxTotal).Some? && |merged| == CapOf(maxTotal).value
    ensures stop ==> merged <= Dedup(done + list)
    ensures !stop ==> merged == Dedup(done + list) && seen == KeySet(merged)
    ensures !stop && CapOf(maxTotal).Some? ==> |merged| < CapOf(maxTotal).value
  {
    ghost var cap := CapOf(maxTotal);
    merged, seen, stop := merged0, seen0, false;
    assert done + list[..0] == done;
    for j := 0 to |list|
      invariant merged == Dedup(done + list[..j])
      invariant seen == KeySet(merged)
      invariant cap.Some? ==> |merged| < cap.value
    {
      var x := list[j];
      DedupNext(done, list, j);
      if x == [] {
        continue;
      }
      var key := Lower(x);
      if key !in seen {
        KeySetAppend(merged, x);
        merged := merged + [x];
        seen := seen + {key};
      }
      if maxTotal.Some? && maxTotal.value != 0 && |merged| >= maxTotal.value {
        DedupPrefixOfList(done, list, j + 1);
        stop := true;
        return;
      }
    }
    assert list[..|list|] == list;
  }

  /** `DedupStep` at position `j` of `list`, after the entries `done`. */
  lemma DedupNext(done: seq<string>, list: seq<string>, j: int)
    requires 0 <= j < |list|
    ensures Dedup(done + list[..j + 1])
         == if list[j] == [] || Lower(list[j]) in KeySet(Dedup(done + list[..j]))
            then Dedup(done + list[..j]) else Dedup(done + list[..j]) + [list[j]]
  {
    assert done + list[..j + 1] == done + list[..j] + [list[j]];
    DedupStep(done + list[..j], list[j]);
  }

  /** `DedupPrefix` for a prefix of `list`, after the entries `done`. */
  lemma DedupPrefixOfList(done: seq<string>, list: seq<string>, j: int)
    requires 0 <= j <= |list|
    ensures Dedup(done + list[..j]) <= Dedup(done + list)
  {
    assert done + list == (done + list[..j]) + list[j..];
    DedupPrefix(done + list[..j], list[j..]);
  }

  /** Whatever the cap, the merge holds no empty entry and no two entries
      whose lowercase keys are equal. */
  lemma {:induction false} MergeDistinct(manual: seq<string>, generated: seq<string>, maxTotal: Option<int>)
    ensures DistinctKeys(MergeSpec(manual, generated, maxTotal))
    ensures forall i :: 0 <= i < |MergeSpec(manual, generated, maxTotal)| ==> MergeSpec(manual, generated, maxTotal)[i] != []
  {
    DedupDistinct(manual + generated);
  }

  /** The merge is a prefix of the first occurrences of the keys of
      `manual + generated`: an order-preserving subsequence in which every
      entry is the first one with its key, with that entry's casing. */
  lemma {:induction false} MergeFirstOccurrences(manual: seq<string>, generated: seq<string>, maxTotal: Option<int>)
    ensures var r, all := MergeSpec(manual, generated, maxTotal), manual + generated;
      && |r| <= |FirstOccurrences(all)|
      && forall k :: 0 <= k < |r| ==> r[k] == all[FirstOccurrences(all)[k]]
  {
    DedupIsFirstOccurrences(manual + generated);
  }

  /** With no cap nothing non-empty is lost: the keys of the merge are the
      keys of the non-empty entries of both lists. */
  lemma {:induction false} MergeComplete(manual: seq<string>, generated: seq<string>, maxTotal: Option<int>)
    requires CapOf(maxTotal).None?
    ensures KeySet(MergeSpec(manual, generated, maxTotal)) == NonEmptyKeys(manual + generated)
  {
    DedupKeys(manual + generated);
  }

  /** Manual pages take priority: the merge and the deduplicated manual list
      agree on their common length, so with no cap, or a cap that is not
      reached within the manual list, the manual pages come first. */
  lemma {:induction false} MergeManualFirst(manual: seq<string>, generated: seq<string>, maxTotal: Option<int>)
    ensures var r := MergeSpec(manual, generated, maxTotal);
      r <= Dedup(manual) || Dedup(manual) <= r
    ensures CapOf(maxTotal).None? ==> Dedup(manual) <= MergeSpec(manual, generated, maxTotal)
  {
    DedupPrefix(manual, generated);
  }

  /** The lowercase keys used by the example below. */
  lemma ExampleKeys()
    ensures Lower("boots") == Lower("Boots")
    ensures Lower("Shoes")[0] == 's' && Lower("Boots")[0] == 'b' && Lower("Hats")[0] == 'h'
  {
    assert Lower("boots") == "boots";
    assert Lower("Boots") == "boots";
  }

  /** "Shoes", "Shoes", "Boots" typed by hand and "boots", "Hats" generated
      give "Shoes", "Boots", "Hats": the repeated page and the case variant
      are dropped, and the manual casing is kept. */
  lemma {:induction false} MergeExample()
    ensures MergeSpec(["Shoes", "Shoes", "Boots"], ["boots", "Hats"], None) == ["Shoes", "Boots", "Hats"]
  {
    var xs := ["Shoes", "Shoes", "Boots", "boots", "Hats"];
    assert ["Shoes", "Shoes", "Boots"] + ["boots", "Hats"] == xs;
    var s, b := Lower("Shoes"), Lower("Boots");
    ExampleKeys();
    assert Dedup(xs[..1]) == ["Shoes"] by {
      assert xs[..1] == [] + ["Shoes"];
      DedupStep([], "Shoes");
    }
    assert KeySet(["Shoes"]) == {s} by {
      KeySetAppend([], "Shoes");
    }
    assert Dedup(xs[..2]) == ["Shoes"] by {
      assert xs[..2] == xs[..1] + ["Shoes"];
      DedupStep(xs[..1], "Shoes");
    }
    assert Dedup(xs[..3]) == ["Shoes", "Boots"] by {
      assert xs[..3] == xs[..2] + ["Boots"];
      DedupStep(xs[..2], "Boots");
    }
    assert KeySet(["Shoes", "Boots"]) == {s, b} by {
      KeySetAppend(["Shoes"], "Boots");
    }
    assert Dedup(xs[..4]) == ["Shoes", "Boots"] by {
      assert xs[..4] == xs[..3] + ["boots"];
      DedupStep(xs[..3], "boots");
    }
    assert Dedup(xs) == ["Shoes", "Boots", "Hats"] by {
      assert xs == xs[..4] + ["Hats"];
      DedupStep(xs[..4], "Hats");
    }
  }

  // ---------------------------------------------------------------------------
  // Worksheet names
  // ---------------------------------------------------------------------------

  const MAX_SHEET_NAME := 31

  /** `page[:31]`: the worksheet name of a page. */
  function SheetName(page: string): (name: string)
    ensures name <= page
    ensures |name| == if |page| <= MAX_SHEET_NAME then |page| else MAX_SHEET_NAME
  {
    if |page| <= MAX_SHEET_NAME then page else page[..MAX_SHEET_NAME]
  }

  /** Truncation is not injective: two different pages can share a sheet. */
  lemma {:induction false} SheetNamesCollide()
    ensures exists p, q :: p != q && SheetName(p) == SheetName(q)
  {
    var p := seq(MAX_SHEET_NAME + 1, _ => 'a');
    var q := p[..MAX_SHEET_NAME] + ['b'];
    assert p[MAX_SHEET_NAME] != q[MAX_SHEET_NAME];
    assert SheetName(p) == SheetName(q);
  }
}
