/** What an export produces from the ordered list of marked locations: the
    page count, the sequence of pages, the progress reports and the name of
    the saved file. */
module ExportPlan {
  import opened Basemaps
  import opened Text
  import opened Locations

  datatype Option<T> = None | Some(value: T)

  /** A page of the exported document: the map capture of the location at
      a store index, or the ruled notes page that follows it. */
  datatype Page = CapturePage(location: nat) | NotesPage(location: nat)

  /** One progress report on the export button: page `current` of `total`. */
  datatype Progress = Progress(current: nat, total: nat)

  /** How an export ends: refused because nothing is marked, abandoned
      when a capture fails (with the reports shown until then), or saved
      (the pages, the number of `addPage` calls, the reports and the file
      name). */
  datatype ExportOutcome =
    | Rejected
    | Aborted(progress: seq<Progress>)
    | Saved(pages: seq<Page>, addPageCalls: nat, progress: seq<Progress>, filename: string)

  /** The `reduce` that counts the pages up front: one per location plus
      one for each location whose notes page is included, accumulated from
      the first location to the last. */
  function TotalPages(s: seq<Location>): (n: nat)
    ensures |s| <= n <= 2 * |s|
  {
    if s == [] then 0
    else TotalPages(s[..|s| - 1]) + 1 + (if s[|s| - 1].includeBlankPage then 1 else 0)
  }

  /** The store indices of the locations that ask for a notes page. */
  ghost function WithNotes(s: seq<Location>): set<nat>
  {
    set i: nat | i < |s| && s[i].includeBlankPage
  }

  /** The page count is the number of locations plus the number of notes pages. */
  lemma {:induction false} TotalPagesCountsNotes(s: seq<Location>)
    ensures TotalPages(s) == |s| + |WithNotes(s)|
  {
    if s != [] {
      var n := |s| - 1;
      var prefix := s[..n];
      TotalPagesCountsNotes(prefix);
      if s[n].includeBlankPage {
        assert WithNotes(s) == WithNotes(prefix) + {n};
      } else {
        assert WithNotes(s) == WithNotes(prefix);
      }
    }
  }

  /** The pages of a prefix never outnumber those of the whole list, and
      a prefix that leaves a location out has at least one page fewer. */
  lemma {:induction false} TotalPagesOfPrefix(s: seq<Location>, k: nat)
    requires k <= |s|
    ensures TotalPages(s[..k]) <= TotalPages(s)
    ensures k < |s| ==> TotalPages(s[..k]) + 1 <= TotalPages(s)
  {
    if k < |s| {
      var n := |s| - 1;
      assert s[..n][..k] == s[..k];
      TotalPagesOfPrefix(s[..n], k);
    } else {
      assert s[..k] == s;
    }
  }

  /** The pages one location contributes: its capture page, then its notes
      page when it asks for one. */
  function PagesFor(i: nat, loc: Location): (pages: seq<Page>)
    ensures 1 <= |pages| <= 2 && pages[0] == CapturePage(i)
    ensures |pages| == 2 <==> loc.includeBlankPage
    ensures |pages| == 2 ==> pages[1] == NotesPage(i)
  {
    [CapturePage(i)] + if loc.includeBlankPage then [NotesPage(i)] else []
  }

  /** The pages of the document in order; there are as many as the page
      count says. */
  function PagePlan(s: seq<Location>): (pages: seq<Page>)
    ensures |pages| == TotalPages(s)
  {
    if s == [] then [] else PagePlan(s[..|s| - 1]) + PagesFor(|s| - 1, s[|s| - 1])
  }

  /** Every page belongs to a location of the list, the pages follow store
      order, and a notes page belongs only to a location that asks for one. */
  lemma {:induction false} PagePlanInStoreOrder(s: seq<Location>)
    ensures forall p :: 0 <= p < |PagePlan(s)| ==> PagePlan(s)[p].location < |s|
    ensures forall p :: 0 <= p < |PagePlan(s)| && PagePlan(s)[p].NotesPage? ==>
      s[PagePlan(s)[p].location].includeBlankPage
    ensures forall p, q :: 0 <= p < q < |PagePlan(s)| ==>
      PagePlan(s)[p].location <= PagePlan(s)[q].location
  {
    if s != [] {
      var n := |s| - 1;
      var prefix := s[..n];
      PagePlanInStoreOrder(prefix);
      var pages := PagePlan(s);
      var before := PagePlan(prefix);
      assert pages == before + PagesFor(n, s[n]);
      forall p | 0 <= p < |pages|
        ensures pages[p].location < |s|
        ensures pages[p].NotesPage? ==> s[pages[p].location].includeBlankPage
      {
        if p < |before| {
          assert pages[p] == before[p];
          assert prefix[before[p].location] == s[before[p].location];
        }
      }
      forall p, q | 0 <= p < q < |pages| ensures pages[p].location <= pages[q].location {
        if q < |before| {
          assert pages[p] == before[p] && pages[q] == before[q];
        } else if p < |before| {
          assert pages[p] == before[p];
        }
      }
    }
  }

  /** Planning a longer list extends the plan of its prefix. */
  lemma {:induction false} PagePlanOfPrefix(s: seq<Location>, k: nat)
    requires k <= |s|
    ensures TotalPages(s[..k]) <= |PagePlan(s)|
    ensures PagePlan(s)[..TotalPages(s[..k])] == PagePlan(s[..k])
  {
    if k < |s| {
      var prefix := s[..|s| - 1];
      assert prefix[..k] == s[..k];
      PagePlanOfPrefix(prefix, k);
      var m := TotalPages(s[..k]);
      var before := PagePlan(prefix);
      assert PagePlan(s) == before + PagesFor(|s| - 1, s[|s| - 1]);
      assert PagePlan(s)[..m] == before[..m];
    } else {
      assert s[..k] == s;
    }
  }

  /** Location `k`'s capture page sits at index `TotalPages(s[..k])`: it is
      page number `TotalPages(s[..k]) + 1`. */
  lemma {:induction false} PagePlanPlacesCapture(s: seq<Location>, k: nat)
    requires k < |s|
    ensures TotalPages(s[..k]) < |PagePlan(s)| && PagePlan(s)[TotalPages(s[..k])] == CapturePage(k)
  {
    PagePlanOfPrefix(s, k + 1);
    var prefix := s[..k + 1];
    assert prefix[..k] == s[..k];
    assert PagePlan(prefix) == PagePlan(s[..k]) + PagesFor(k, s[k]);
    assert PagePlan(s)[TotalPages(s[..k])] == PagePlan(prefix)[TotalPages(s[..k])];
  }

  /** The page right after location `i`'s capture page is its notes page
      exactly when it asks for one. */
  lemma {:induction false} PagePlanPlacesNotesAfterCapture(s: seq<Location>, i: nat)
    requires i < |s|
    ensures TotalPages(s[..i]) < |PagePlan(s)|
    ensures s[i].includeBlankPage <==>
      TotalPages(s[..i]) + 1 < |PagePlan(s)| && PagePlan(s)[TotalPages(s[..i]) + 1] == NotesPage(i)
  {
    var at := TotalPages(s[..i]);
    var prefix := s[..i + 1];
    PlanOfNextPrefix(s, i);
    PagePlanOfPrefix(s, i + 1);
    if s[i].includeBlankPage {
      assert PagePlan(prefix)[at + 1] == NotesPage(i);
      assert PagePlan(s)[at + 1] == PagePlan(s)[..TotalPages(prefix)][at + 1];
    } else if i + 1 < |s| {
      PagePlanPlacesCapture(s, i + 1);
    } else {
      assert prefix == s;
    }
  }

  /** Planning one more location of a list adds its pages to the end. */
  lemma {:induction false} PlanOfNextPrefix(s: seq<Location>, i: nat)
    requires i < |s|
    ensures TotalPages(s[..i + 1]) == TotalPages(s[..i]) + |PagesFor(i, s[i])|
    ensures PagePlan(s[..i + 1]) == PagePlan(s[..i]) + PagesFor(i, s[i])
  {
    assert s[..i + 1][..i] == s[..i];
  }

  /** The turn of location `i` in the export loop: it comes after the
      pages of the locations before it, which leave room for at least its
      capture page, and it adds its own pages to the end of the plan. */
  lemma {:induction false} ExportTurnPlan(s: seq<Location>, i: nat)
    requires i < |s|
    ensures TotalPages(s[..i]) + 1 <= TotalPages(s)
    ensures TotalPages(s[..i + 1]) == TotalPages(s[..i]) + |PagesFor(i, s[i])|
    ensures PagePlan(s[..i + 1]) == PagePlan(s[..i]) + PagesFor(i, s[i])
  {
    PlanOfNextPrefix(s, i);
    TotalPagesOfPrefix(s, i);
  }

  /** The reports `1/total`, `2/total`, ..., `count/total`, in the order
      they are shown. */
  function Reports(count: nat, total: nat): (reports: seq<Progress>)
    ensures |reports| == count
  {
    if count == 0 then [] else Reports(count - 1, total) + [Progress(count, total)]
  }

  /** The `k`-th report shown is page `k + 1` of the total: the page count
      goes up by one at every report. */
  lemma {:induction false} ReportsCountUp(count: nat, total: nat)
    ensures |Reports(count, total)| == count
    ensures forall k :: 0 <= k < count ==> Reports(count, total)[k] == Progress(k + 1, total)
  {
    if count > 0 {
      ReportsCountUp(count - 1, total);
    }
  }

  /** `toISOString().slice(0, 10)`: the first ten characters, or all of a
      shorter text. */
  function IsoDate(isoTimestamp: string): (date: string)
    ensures |date| == if |isoTimestamp| < 10 then |isoTimestamp| else 10
    ensures date == isoTimestamp[..|date|]
  {
    if |isoTimestamp| <= 10 then isoTimestamp else isoTimestamp[..10]
  }

  /** The `map` over the locations that removes every character outside
      `[a-zA-Z0-9\s]` from each name: one sanitised name per location, in
      store order. */
  function SanitizedNames(s: seq<Location>): (names: seq<string>)
    ensures |names| == |s|
  {
    if s == [] then [] else [Sanitize(s[0].name)] + SanitizedNames(s[1..])
  }

  /** The `k`-th sanitised name is the `k`-th location's name, sanitised. */
  lemma {:induction false} SanitizedNamesInOrder(s: seq<Location>)
    ensures forall k :: 0 <= k < |s| ==> SanitizedNames(s)[k] == Sanitize(s[k].name)
  {
    if s != [] {
      SanitizedNamesInOrder(s[1..]);
    }
  }

  const FilePrefix: string := "field-maps-"
  const FileSuffix: string := ".pdf"

  /** The name of the saved file: the prefix, the sanitised names joined
      with '-', a '-', the date, and the extension. */
  function FileName(s: seq<Location>, isoTimestamp: string): (f: string)
    ensures |f| > |FilePrefix| + |FileSuffix|
    ensures f[..|FilePrefix|] == FilePrefix
    ensures f[|f| - |FileSuffix|..] == FileSuffix
  {
    FilePrefix + Join(SanitizedNames(s), '-') + "-" + IsoDate(isoTimestamp) + FileSuffix
  }

  /** No sanitised name holds the separator. */
  lemma SanitizedNamesHaveNoDash(s: seq<Location>)
    ensures forall k :: 0 <= k < |s| ==> '-' !in SanitizedNames(s)[k]
  {
    SanitizedNamesInOrder(s);
  }

  /** The name part of the file name holds one '-' fewer than there are
      locations. */
  lemma {:induction false} JoinedNamesDashCount(s: seq<Location>)
    requires s != []
    ensures multiset(Join(SanitizedNames(s), '-'))['-'] == |s| - 1
  {
    SanitizedNamesHaveNoDash(s);
    JoinSeparatorCount(SanitizedNames(s), '-');
  }

  /** From a file name and a full ISO timestamp, the sanitised names and the
      date can be read back: the name part splits on '-' into exactly the
      sanitised names, in store order, and the date is the timestamp's
      first ten characters. */
  lemma {:induction false} FileNameRecoversNames(s: seq<Location>, isoTimestamp: string)
    requires s != [] && |isoTimestamp| >= 10
    ensures var f := FileName(s, isoTimestamp);
      |f| >= |FilePrefix| + 15
      && Split(f[|FilePrefix|..|f| - 15], '-') == SanitizedNames(s)
      && f[|f| - 14..|f| - 4] == isoTimestamp[..10]
  {
    var f := FileName(s, isoTimestamp);
    var joined := Join(SanitizedNames(s), '-');
    var date := IsoDate(isoTimestamp);
    assert f == FilePrefix + joined + ("-" + date + FileSuffix);
    assert |"-" + date + FileSuffix| == 15;
    assert f[|FilePrefix|..|f| - 15] == joined;
    assert f[|f| - 14..|f| - 4] == date;
    SanitizedNamesHaveNoDash(s);
    SplitJoin(SanitizedNames(s), '-');
  }

  /** What exporting `s` produces when the capture of location `failAt`
      fails (or none does), saving at the moment `isoTimestamp`: refused
      when nothing is marked; abandoned after the report of the failing
      location's capture page; otherwise the planned pages, a new PDF page
      for every page but the first, a report for every page, and the
      derived file name. */
  function ExportResult(s: seq<Location>, failAt: Option<nat>, isoTimestamp: string): (r: ExportOutcome)
    ensures r.Rejected? <==> s == []
    ensures r.Aborted? <==> s != [] && failAt.Some? && failAt.value < |s|
    ensures r.Aborted? ==> 1 <= |r.progress| <= TotalPages(s)
    ensures r.Saved? ==>
      |r.pages| == |r.progress| == TotalPages(s) && r.addPageCalls == |r.pages| - 1
      && r.filename == FileName(s, isoTimestamp)
  {
    if s == [] then Rejected
    else if failAt.Some? && failAt.value < |s| then
      TotalPagesOfPrefix(s, failAt.value);
      Aborted(Reports(TotalPages(s[..failAt.value]) + 1, TotalPages(s)))
    else
      Saved(PagePlan(s), TotalPages(s) - 1, Reports(TotalPages(s), TotalPages(s)), FileName(s, isoTimestamp))
  }

  /** The basemap showing after an export that started on `current`: the
      export brings up each captured location's basemap in turn and does
      not restore the one it started on. */
  function BasemapAfterExport(s: seq<Location>, failAt: Option<nat>, current: Basemap): (b: Basemap)
    ensures s == [] ==> b == current
    ensures s != [] ==> exists k :: 0 <= k < |s| && b == s[k].basemap
  {
    if s == [] then current
    else if failAt.Some? && failAt.value < |s| then s[failAt.value].basemap
    else s[|s| - 1].basemap
  }

  /** The progress shown never passes the total announced up front: the
      reports of an export count `1/total`, `2/total`, ... with `total` the
      page count of the whole list. A saved export has shown exactly one
      report per page, the last one `total/total`, and called `addPage`
      once for every page after the first. */
  lemma {:induction false} ExportReportsStayWithinTotal(s: seq<Location>, failAt: Option<nat>, isoTimestamp: string)
    ensures ExportResult(s, failAt, isoTimestamp).Rejected? <==> s == []
    ensures !ExportResult(s, failAt, isoTimestamp).Rejected? ==>
      var progress := ExportResult(s, failAt, isoTimestamp).progress;
      1 <= |progress| <= TotalPages(s)
      && forall k :: 0 <= k < |progress| ==> progress[k] == Progress(k + 1, TotalPages(s))
    ensures ExportResult(s, failAt, isoTimestamp).Saved? ==>
      var o := ExportResult(s, failAt, isoTimestamp);
      |o.progress| == |o.pages| == TotalPages(s)
      && o.addPageCalls == |o.pages| - 1
  {
    if s != [] {
      if failAt.Some? && failAt.value < |s| {
        TotalPagesOfPrefix(s, failAt.value);
        ReportsCountUp(TotalPages(s[..failAt.value]) + 1, TotalPages(s));
      } else {
        ReportsCountUp(TotalPages(s), TotalPages(s));
      }
    }
  }
}
