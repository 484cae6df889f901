/** The application's state and the handlers that change it: the ordered
    list of marked locations, the counter that numbers default names, the
    marking cooldown flag and the active basemap. Each handler applies the
    matching edit from `Locations` in place. The clock, the map's current
    view, the confirmation dialog and the outcome of each map capture are
    supplied by the caller. */
module Store {
  import opened Basemaps
  import opened Text
  import opened Locations
  import opened ExportPlan

  class LocationStore {
    var locations: seq<Location>
    var counter: nat
    var isMarking: bool
    var currentBasemap: Basemap

    /** Ids are unique, and the counter is always ahead of the number of
        marked locations (it starts at 1 and only a clear resets it). */
    ghost predicate Valid()
      reads this
    {
      UniqueIds(locations) && |locations| < counter
    }

    /** The state at page load: nothing marked, counter 1, not in the
        marking cooldown, LINZ Topo showing. */
    constructor ()
      ensures Valid()
      ensures locations == [] && counter == 1 && !isMarking && currentBasemap == Initial
    {
      locations := [];
      counter := 1;
      isMarking := false;
      currentBasemap := Initial;
    }

    /** Marking the map's current view. During the cooldown nothing
        happens; otherwise a location named after the counter, without a
        notes page and on the active basemap, is appended, the counter
        advances and the cooldown starts. `id` is the clock reading, which
        differs from every earlier one. */
    method Mark(id: nat, view: MapView)
      requires Valid()
      requires !isMarking ==> IdAbsent(locations, id)
      modifies this
      ensures Valid()
      ensures old(isMarking) ==> unchanged(this)
      ensures !old(isMarking) ==>
        locations == old(locations) + [Location(id, DefaultName(old(counter)), view.lat, view.lng, view.zoom, false, old(currentBasemap))]
        && counter == old(counter) + 1
        && isMarking
        && currentBasemap == old(currentBasemap)
    {
      if isMarking {
        return;
      }
      isMarking := true;
      var location := Location(id, DefaultName(counter), view.lat, view.lng, view.zoom, false, currentBasemap);
      locations := locations + [location];
      counter := counter + 1;
    }

    /** The end of the marking cooldown. */
    method FinishMarking()
      modifies this`isMarking
      ensures !isMarking
    {
      isMarking := false;
    }

    /** The notes-page checkbox of a location. */
    method SetIncludeBlankPage(id: nat, checked: bool)
      requires Valid()
      modifies this`locations
      ensures Valid()
      ensures locations == WithNotesPage(old(locations), id, checked)
    {
      locations := WithNotesPage(locations, id, checked);
      SameIdsKeepUnique(old(locations), locations);
    }

    /** Committing a name edit: the trimmed input, or the name unchanged
        when the input is blank. */
    method CommitRename(id: nat, input: string)
      requires Valid()
      modifies this`locations
      ensures Valid()
      ensures locations == Renamed(old(locations), id, input)
    {
      locations := Renamed(locations, id, input);
      SameIdsKeepUnique(old(locations), locations);
    }

    /** Deleting a location: the entry found by id is spliced out; the
        counter is left alone, so default names are not reused. */
    method Delete(id: nat)
      requires Valid()
      modifies this`locations
      ensures Valid()
      ensures locations == Deleted(old(locations), id)
      ensures |locations| == |old(locations)| - (if IdAbsent(old(locations), id) then 0 else 1)
    {
      var i := FindIndex(locations, id);
      if i == -1 {
        return;
      }
      RemoveAtKeepsUnique(locations, i);
      locations := RemoveAt(locations, i);
    }

    /** Clearing the list. An empty list returns at once, without asking
        and without resetting the counter; a declined confirmation changes
        nothing; otherwise the list empties and the counter goes back to 1. */
    method ClearAll(confirmed: bool)
      requires Valid()
      modifies this`locations, this`counter
      ensures Valid()
      ensures old(locations) == [] || !confirmed ==> locations == old(locations) && counter == old(counter)
      ensures old(locations) != [] && confirmed ==> locations == [] && counter == 1
    {
      if locations == [] {
        return;
      }
      if confirmed {
        locations := [];
        counter := 1;
      }
    }

    /** Dropping one list entry onto another. */
    method Reorder(draggedId: nat, targetId: nat)
      requires Valid()
      modifies this`locations
      ensures Valid()
      ensures locations == Reordered(old(locations), draggedId, targetId)
    {
      ReorderedKeepsUnique(locations, draggedId, targetId);
      locations := Reordered(locations, draggedId, targetId);
    }

    /** Choosing a basemap: the layers are swapped only when it is not the
        one already showing. */
    method SwitchBasemap(b: Basemap) returns (swapped: bool)
      modifies this`currentBasemap
      ensures swapped <==> old(currentBasemap) != b
      ensures currentBasemap == b
    {
      swapped := currentBasemap != b;
      if swapped {
        currentBasemap := b;
      }
    }

    /** One turn of the export loop, for location `i` of `s`, after the
        pages of the locations before it. The page count advances and is
        reported, and the location's basemap is brought up. A failing
        capture ends the turn there. Otherwise the capture page is added,
        on a new PDF page unless it is the first, and a location that asks
        for one gets its notes page on another new page, with its own
        report. */
    method ExportLocation(s: seq<Location>, i: nat, total: nat, fails: bool,
                          pageCount: nat, pages: seq<Page>, progress: seq<Progress>, addPageCalls: nat)
      returns (failed: bool, pageCount': nat, pages': seq<Page>, progress': seq<Progress>, addPageCalls': nat)
      requires i < |s|
      requires progress == Reports(pageCount, total)
      requires addPageCalls == if pageCount == 0 then 0 else pageCount - 1
      modifies this`currentBasemap
      ensures currentBasemap == s[i].basemap
      ensures failed == fails
      ensures failed ==> progress' == Reports(pageCount + 1, total)
      ensures !failed ==>
        pageCount' == pageCount + |PagesFor(i, s[i])| && pages' == pages + PagesFor(i, s[i])
        && progress' == Reports(pageCount', total) && addPageCalls' == pageCount' - 1
    {
      var location := s[i];
      pageCount' := pageCount + 1;
      progress' := progress + [Progress(pageCount', total)];
      if location.basemap != currentBasemap {
        currentBasemap := location.basemap;
      }
      failed := fails;
      pages' := pages;
      addPageCalls' := addPageCalls;
      if failed {
        return;
      }
      if pageCount' > 1 {
        addPageCalls' := addPageCalls' + 1;
      }
      pages' := pages' + [CapturePage(i)];
      if location.includeBlankPage {
        pageCount' := pageCount' + 1;
        progress' := progress' + [Progress(pageCount', total)];
        addPageCalls' := addPageCalls' + 1;
        pages' := pages' + [NotesPage(i)];
      }
    }

    /** The export loop over `s`, in store order, one `ExportLocation`
        turn per location; `failAt` is the index of the first location
        whose capture fails, if any. A failure ends the loop with the
        reports shown so far and that location's basemap showing. A
        complete loop has made the planned pages, with a new PDF page for
        every page but the first, and reported every page number up to the
        total; the last location's basemap is showing. */
    method ExportAll(s: seq<Location>, failAt: Option<nat>)
      returns (aborted: bool, pages: seq<Page>, progress: seq<Progress>, addPageCalls: nat)
      requires s != []
      modifies this`currentBasemap
      ensures aborted <==> failAt.Some? && failAt.value < |s|
      ensures aborted ==>
        progress == Reports(TotalPages(s[..failAt.value]) + 1, TotalPages(s))
        && currentBasemap == s[failAt.value].basemap
      ensures !aborted ==>
        pages == PagePlan(s) && addPageCalls == TotalPages(s) - 1
        && progress == Reports(TotalPages(s), TotalPages(s))
        && currentBasemap == s[|s| - 1].basemap
    {
      var total := TotalPages(s);
      var pageCount: nat := 0;
      pages, progress, addPageCalls := [], [], 0;
      var i: nat := 0;
      while i < |s|
        invariant i <= |s|
        invariant pageCount == TotalPages(s[..i]) && pages == PagePlan(s[..i])
        invariant progress == Reports(pageCount, total)
        invariant addPageCalls == if pageCount == 0 then 0 else pageCount - 1
        invariant i > 0 ==> currentBasemap == s[i - 1].basemap
        invariant failAt.Some? ==> failAt.value >= i
      {
        ExportTurnPlan(s, i);
        var failed;
        failed, pageCount, pages, progress, addPageCalls :=
          ExportLocation(s, i, total, failAt.Some? && failAt.value == i, pageCount, pages, progress, addPageCalls);
        if failed {
          return true, pages, progress, addPageCalls;
        }
        i := i + 1;
      }
      assert s[..i] == s;
      aborted := false;
    }

    /** Exporting the list, with the ISO timestamp of the moment of saving.
        Nothing is marked: refused, nothing changes. Otherwise the export
        loop runs; a failed capture abandons the export with the reports
        shown so far, none of them beyond the total announced. A complete
        run saves the planned pages under the name derived from the
        locations' names and the date. */
    method Export(failAt: Option<nat>, isoTimestamp: string) returns (outcome: ExportOutcome)
      modifies this`currentBasemap
      ensures outcome == ExportResult(locations, failAt, isoTimestamp)
      ensures currentBasemap == BasemapAfterExport(locations, failAt, old(currentBasemap))
    {
      var s := locations;
      if s == [] {
        return Rejected;
      }
      var aborted, pages, progress, addPageCalls := ExportAll(s, failAt);
      if aborted {
        return Aborted(progress);
      }
      outcome := Saved(pages, addPageCalls, progress, FileName(s, isoTimestamp));
    }
  }

  /** Mark, mark, delete the first, mark: the remaining locations are
      named "Location 2" and "Location 3", because deleting does not wind
      the counter back. Ids are successive clock readings. */
  method MarkDeleteMark(view: MapView) returns (names: seq<string>)
    ensures names == ["Location 2", "Location 3"]
  {
    assert DefaultName(2) == "Location 2" && DefaultName(3) == "Location 3";
    var store := new LocationStore();
    store.Mark(1, view);
    store.FinishMarking();
    store.Mark(2, view);
    store.FinishMarking();
    store.Delete(1);
    store.Mark(3, view);
    names := [store.locations[0].name, store.locations[1].name];
  }
}
