/** The three basemaps the map can show, the string keys the application
    stores for them, and the labels shown in the list of marked locations. */
module Basemaps {

  /** LINZ topographic, OpenStreetMap and LINZ aerial imagery. */
  datatype Basemap = Linz | Osm | Aerial

  /** The basemap active when the application starts. */
  const Initial: Basemap := Linz

  /** The key under which a basemap's tile layer is registered. */
  function Key(b: Basemap): (k: string)
    ensures b == Initial <==> k == "linz"
    ensures |k| >= 3 && forall i :: 0 <= i < |k| ==> 'a' <= k[i] <= 'z'
  {
    match b
    case Linz => "linz"
    case Osm => "osm"
    case Aerial => "aerial"
  }

  /** The label shown for a stored basemap key; any key that names none of
      the three basemaps is shown as "Unknown". */
  function DisplayName(key: string): (name: string)
    ensures name == "Unknown" <==> forall b: Basemap :: Key(b) != key
  {
    if key == Key(Linz) then "LINZ Topo"
    else if key == Key(Osm) then "OpenStreetMap"
    else if key == Key(Aerial) then "LINZ Aerial"
    else "Unknown"
  }

  /** Distinct basemaps have distinct keys and distinct labels, so the list
      never shows two basemaps under one name. */
  lemma DisplayNamesDistinct(a: Basemap, b: Basemap)
    requires a != b
    ensures Key(a) != Key(b)
    ensures DisplayName(Key(a)) != DisplayName(Key(b))
  {
  }
}
