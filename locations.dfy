/** Marked locations and the edits the application makes to its ordered
    list of them. Each edit is a function from the old list to the new one;
    the store applies them in place. Lookups go by id and take the first
    entry that has it, as `find` and `findIndex` do. */
module Locations {
  import opened Basemaps
  import opened Text

  /** The map collaborator's current centre (degrees) and zoom level. */
  datatype MapView = MapView(lat: real, lng: real, zoom: int)

  /** One marked location. The marker reference of the original record is
      always empty and is not modelled. */
  datatype Location = Location(
    id: nat,
    name: string,
    lat: real,
    lng: real,
    zoom: int,
    includeBlankPage: bool,
    basemap: Basemap)

  /** The name a location gets when it is marked: "Location " and the counter. */
  function DefaultName(counter: nat): (name: string)
    ensures |name| > 9 && name[..9] == "Location "
    ensures AllDigits(name[9..]) && DecimalValue(name[9..]) == counter
  {
    DecimalRoundTrip(counter);
    "Location " + Decimal(counter)
  }

  /** Different counter values give different default names. */
  lemma {:induction false} DefaultNameInjective(a: nat, b: nat)
    requires DefaultName(a) == DefaultName(b)
    ensures a == b
  {
    assert DefaultName(a)[9..] == Decimal(a);
    assert DefaultName(b)[9..] == Decimal(b);
    DecimalInjective(a, b);
  }

  predicate IdAbsent(s: seq<Location>, id: nat)
  {
    forall k :: 0 <= k < |s| ==> s[k].id != id
  }

  /** No two entries share an id. */
  predicate UniqueIds(s: seq<Location>)
  {
    forall i, j :: 0 <= i < j < |s| ==> s[i].id != s[j].id
  }

  /** `findIndex(loc => loc.id === id)`: the index of the first entry with
      the id, or -1 when there is none. */
  function FindIndex(s: seq<Location>, id: nat): (i: int)
    ensures -1 <= i < |s|
    ensures i == -1 <==> IdAbsent(s, id)
    ensures 0 <= i ==> s[i].id == id && IdAbsent(s[..i], id)
  {
    if s == [] then -1
    else if s[0].id == id then 0
    else
      var j := FindIndex(s[1..], id);
      if j == -1 then -1
      else
        assert s[..j + 1] == [s[0]] + s[1..][..j];
        j + 1
  }

  /** In a list with unique ids, the entry at index `k` is the one found by its id. */
  lemma FindIndexOfUnique(s: seq<Location>, k: nat)
    requires UniqueIds(s) && k < |s|
    ensures FindIndex(s, s[k].id) == k
  {
  }

  /** Two records that agree in everything except the notes-page flag. */
  predicate SameExceptNotesFlag(a: Location, b: Location)
  {
    a.id == b.id && a.name == b.name && a.lat == b.lat && a.lng == b.lng
    && a.zoom == b.zoom && a.basemap == b.basemap
  }

  /** Two records that agree in everything except the name. */
  predicate SameExceptName(a: Location, b: Location)
  {
    a.id == b.id && a.lat == b.lat && a.lng == b.lng && a.zoom == b.zoom
    && a.includeBlankPage == b.includeBlankPage && a.basemap == b.basemap
  }

  /** Two lists of the same length whose entries carry the same ids in the same order. */
  predicate SameIds(s: seq<Location>, r: seq<Location>)
  {
    |s| == |r| && forall k :: 0 <= k < |s| ==> s[k].id == r[k].id
  }

  /** Edits that keep every entry's id in place keep the ids unique. */
  lemma {:induction false} SameIdsKeepUnique(s: seq<Location>, r: seq<Location>)
    requires SameIds(s, r) && UniqueIds(s)
    ensures UniqueIds(r)
  {
  }

  /** The notes-page checkbox: sets `includeBlankPage` of the first entry
      with the id to `checked`, and changes nothing else; an absent id
      changes nothing. */
  function WithNotesPage(s: seq<Location>, id: nat, checked: bool): (r: seq<Location>)
    ensures SameIds(s, r)
    ensures FindIndex(s, id) == -1 ==> r == s
    ensures forall k :: 0 <= k < |s| && k != FindIndex(s, id) ==> r[k] == s[k]
    ensures 0 <= FindIndex(s, id) ==>
      r[FindIndex(s, id)].includeBlankPage == checked
      && SameExceptNotesFlag(r[FindIndex(s, id)], s[FindIndex(s, id)])
  {
    var i := FindIndex(s, id);
    if i == -1 then s else s[i := s[i].(includeBlankPage := checked)]
  }

  /** Committing an inline rename of the first entry with the id: the name
      becomes the input without surrounding whitespace, unless the input is
      all whitespace, in which case the old name stays. Nothing else
      changes; an absent id changes nothing. */
  function Renamed(s: seq<Location>, id: nat, input: string): (r: seq<Location>)
    ensures SameIds(s, r)
    ensures FindIndex(s, id) == -1 || AllWhitespace(input) ==> r == s
    ensures forall k :: 0 <= k < |s| && k != FindIndex(s, id) ==> r[k] == s[k]
    ensures 0 <= FindIndex(s, id) && !AllWhitespace(input) ==>
      r[FindIndex(s, id)].name == Trim(input)
      && SameExceptName(r[FindIndex(s, id)], s[FindIndex(s, id)])
  {
    var i := FindIndex(s, id);
    if i == -1 then s
    else
      var trimmed := Trim(input);
      var newName := if trimmed != [] then trimmed else s[i].name;
      s[i := s[i].(name := newName)]
  }

  /** `splice(i, 1)`: the list without its entry at `i`, the others in order. */
  function RemoveAt(s: seq<Location>, i: nat): (r: seq<Location>)
    requires i < |s|
    ensures |r| == |s| - 1
    ensures forall k :: 0 <= k < i ==> r[k] == s[k]
    ensures forall k :: i <= k < |r| ==> r[k] == s[k + 1]
    ensures multiset(r) + multiset{s[i]} == multiset(s)
  {
    assert s == s[..i] + [s[i]] + s[i + 1..];
    s[..i] + s[i + 1..]
  }

  /** `splice(i, 0, x)`: `x` inserted so that it sits at index `i`; removing
      it again gives back the list. */
  function InsertAt(s: seq<Location>, i: nat, x: Location): (r: seq<Location>)
    requires i <= |s|
    ensures |r| == |s| + 1 && r[i] == x
    ensures forall k :: 0 <= k < i ==> r[k] == s[k]
    ensures forall k :: i <= k < |s| ==> r[k + 1] == s[k]
    ensures multiset(r) == multiset(s) + multiset{x}
    ensures RemoveAt(r, i) == s
  {
    var r := s[..i] + [x] + s[i..];
    assert s == s[..i] + s[i..];
    assert r[..i] == s[..i] && r[i + 1..] == s[i..];
    r
  }

  lemma {:induction false} RemoveAtKeepsUnique(s: seq<Location>, i: nat)
    requires i < |s| && UniqueIds(s)
    ensures UniqueIds(RemoveAt(s, i)) && IdAbsent(RemoveAt(s, i), s[i].id)
  {
    var r := RemoveAt(s, i);
    forall a, b | 0 <= a < b < |r| ensures r[a].id != r[b].id {
      var a' := if a < i then a else a + 1;
      var b' := if b < i then b else b + 1;
      assert r[a] == s[a'] && r[b] == s[b'];
    }
    forall k | 0 <= k < |r| ensures r[k].id != s[i].id {
      var k' := if k < i then k else k + 1;
      assert r[k] == s[k'];
    }
  }

  lemma {:induction false} InsertAtKeepsUnique(s: seq<Location>, i: nat, x: Location)
    requires i <= |s| && UniqueIds(s) && IdAbsent(s, x.id)
    ensures UniqueIds(InsertAt(s, i, x))
  {
    var r := InsertAt(s, i, x);
    forall a, b | 0 <= a < b < |r| ensures r[a].id != r[b].id {
      if a != i && b != i {
        var a' := if a < i then a else a - 1;
        var b' := if b < i then b else b - 1;
        assert r[a] == s[a'] && r[b] == s[b'];
      } else if a == i {
        assert r[b] == s[b - 1];
      } else {
        assert r[a] == s[a];
      }
    }
  }

  /** Deleting the first entry with the id; the rest keep their order, and
      an absent id changes nothing. */
  function Deleted(s: seq<Location>, id: nat): (r: seq<Location>)
    ensures FindIndex(s, id) == -1 ==> r == s
    ensures 0 <= FindIndex(s, id) ==>
      |r| == |s| - 1
      && (forall k :: 0 <= k < FindIndex(s, id) ==> r[k] == s[k])
      && (forall k :: FindIndex(s, id) <= k < |r| ==> r[k] == s[k + 1])
      && multiset(r) + multiset{s[FindIndex(s, id)]} == multiset(s)
  {
    var i := FindIndex(s, id);
    if i == -1 then s else RemoveAt(s, i)
  }

  /** The drop handler's reorder: take the dragged entry out and put it back
      at the index the target had before the removal. Nothing happens when
      the two ids are equal or either is absent. Otherwise the list is a
      permutation of the old one and the dragged entry sits at the target's
      old index. */
  function Reordered(s: seq<Location>, draggedId: nat, targetId: nat): (r: seq<Location>)
    ensures |r| == |s| && multiset(r) == multiset(s)
    ensures draggedId == targetId || FindIndex(s, draggedId) == -1 || FindIndex(s, targetId) == -1 ==> r == s
    ensures draggedId != targetId && 0 <= FindIndex(s, draggedId) && 0 <= FindIndex(s, targetId) ==>
      r[FindIndex(s, targetId)] == s[FindIndex(s, draggedId)]
  {
    var d := FindIndex(s, draggedId);
    var t := FindIndex(s, targetId);
    if draggedId == targetId || d == -1 || t == -1 then s
    else InsertAt(RemoveAt(s, d), t, s[d])
  }

  /** Apart from the dragged entry, a reorder keeps every entry in its
      relative order: taking the dragged entry out of the new list gives
      the old list without it. */
  lemma {:induction false} ReorderKeepsOthersInOrder(s: seq<Location>, draggedId: nat, targetId: nat)
    requires draggedId != targetId
    requires 0 <= FindIndex(s, draggedId) && 0 <= FindIndex(s, targetId)
    ensures RemoveAt(Reordered(s, draggedId, targetId), FindIndex(s, targetId))
      == RemoveAt(s, FindIndex(s, draggedId))
  {
  }

  /** Reordering keeps the ids unique. */
  lemma {:induction false} ReorderedKeepsUnique(s: seq<Location>, draggedId: nat, targetId: nat)
    requires UniqueIds(s)
    ensures UniqueIds(Reordered(s, draggedId, targetId))
  {
    var d := FindIndex(s, draggedId);
    var t := FindIndex(s, targetId);
    if draggedId != targetId && d != -1 && t != -1 {
      RemoveAtKeepsUnique(s, d);
      InsertAtKeepsUnique(RemoveAt(s, d), t, s[d]);
    }
  }

  /** Dragging an entry downward drops it just AFTER the target: the target
      moves up one place and the dragged entry follows it. */
  lemma {:induction false} ReorderDownwardLandsAfterTarget(s: seq<Location>, draggedId: nat, targetId: nat)
    requires draggedId != targetId
    requires 0 <= FindIndex(s, draggedId) < FindIndex(s, targetId)
    ensures var t := FindIndex(s, targetId);
      Reordered(s, draggedId, targetId)[t - 1] == s[t]
      && Reordered(s, draggedId, targetId)[t] == s[FindIndex(s, draggedId)]
  {
    var d := FindIndex(s, draggedId);
    var t := FindIndex(s, targetId);
    assert RemoveAt(s, d)[t - 1] == s[t];
  }

  /** Dragging an entry upward drops it just BEFORE the target. */
  lemma {:induction false} ReorderUpwardLandsBeforeTarget(s: seq<Location>, draggedId: nat, targetId: nat)
    requires draggedId != targetId
    requires 0 <= FindIndex(s, targetId) < FindIndex(s, draggedId)
    ensures var t := FindIndex(s, targetId);
      Reordered(s, draggedId, targetId)[t] == s[FindIndex(s, draggedId)]
      && Reordered(s, draggedId, targetId)[t + 1] == s[t]
  {
    var d := FindIndex(s, draggedId);
    var t := FindIndex(s, targetId);
    assert RemoveAt(s, d)[t] == s[t];
  }

  /** Dropping an entry on a neighbour, above or below, swaps the two. */
  lemma {:induction false} ReorderNeighboursSwaps(s: seq<Location>, draggedId: nat, targetId: nat)
    requires draggedId != targetId
    requires 0 <= FindIndex(s, draggedId) && 0 <= FindIndex(s, targetId)
    requires FindIndex(s, draggedId) + 1 == FindIndex(s, targetId)
      || FindIndex(s, targetId) + 1 == FindIndex(s, draggedId)
    ensures var d, t := FindIndex(s, draggedId), FindIndex(s, targetId);
      Reordered(s, draggedId, targetId) == s[d := s[t]][t := s[d]]
  {
    var d := FindIndex(s, draggedId);
    var t := FindIndex(s, targetId);
    var r := Reordered(s, draggedId, targetId);
    var rest := RemoveAt(s, d);
    forall k | 0 <= k < |s| ensures r[k] == s[d := s[t]][t := s[d]][k] {
      if k < d && k < t {
        assert r[k] == rest[k];
      } else if k > d && k > t {
        assert r[k] == rest[k - 1];
      } else if k != t {
        assert k == d;
        if d < t {
          assert r[k] == rest[d];
        } else {
          assert r[k] == rest[d - 1];
        }
      }
    }
  }

  /** After dropping an entry on its lower neighbour, the two ids are found
      at each other's old index. */
  lemma {:induction false} ReorderOntoNextFindsSwapped(s: seq<Location>, draggedId: nat, targetId: nat)
    requires UniqueIds(s) && draggedId != targetId
    requires 0 <= FindIndex(s, draggedId) && FindIndex(s, draggedId) + 1 == FindIndex(s, targetId)
    ensures var r := Reordered(s, draggedId, targetId);
      FindIndex(r, draggedId) == FindIndex(s, targetId)
      && FindIndex(r, targetId) == FindIndex(s, draggedId)
  {
    var d := FindIndex(s, draggedId);
    var t := d + 1;
    var r := Reordered(s, draggedId, targetId);
    ReorderNeighboursSwaps(s, draggedId, targetId);
    ReorderedKeepsUnique(s, draggedId, targetId);
    FindIndexOfUnique(r, t);
    FindIndexOfUnique(r, d);
  }

  /** Dropping an entry on its lower neighbour swaps the two (the entry lands
      after the target), so doing it twice gives back the original order. */
  lemma {:induction false} ReorderOntoNextTwiceRestores(s: seq<Location>, draggedId: nat, targetId: nat)
    requires UniqueIds(s) && draggedId != targetId
    requires 0 <= FindIndex(s, draggedId) && FindIndex(s, draggedId) + 1 == FindIndex(s, targetId)
    ensures Reordered(Reordered(s, draggedId, targetId), draggedId, targetId) == s
  {
    var d := FindIndex(s, draggedId);
    var t := d + 1;
    var r := Reordered(s, draggedId, targetId);
    ReorderNeighboursSwaps(s, draggedId, targetId);
    ReorderOntoNextFindsSwapped(s, draggedId, targetId);
    ReorderNeighboursSwaps(r, draggedId, targetId);
    SwapBack(s, r, d, t);
  }

  /** Swapping two entries back undoes swapping them. */
  lemma {:induction false} SwapBack(s: seq<Location>, r: seq<Location>, d: nat, t: nat)
    requires d < |s| && t < |s| && r == s[d := s[t]][t := s[d]]
    ensures r[t := r[d]][d := r[t]] == s
  {
  }
}
