/** The campus location registry: a constant table of named points, the
    name -> location map built from it by a left fold, and the list of names
    offered in the dropdowns. */
module CampusLocations {

  /** A named point of the campus map, in the coordinates of the 800 x 600
      reference frame the map is drawn from. */
  datatype Location = Location(name: string, x: int, y: int)

  /** One row of the coordinate table: a name and its (x, y) pair. */
  type Entry = (string, (int, int))

  /** Width and height of the reference frame the map scales from. */
  const FrameWidth: int := 800
  const FrameHeight: int := 600

  /** The coordinate table, in its declaration order. */
  const LocationData: seq<Entry> := [
    ("TRP", (60, 350)),
    ("Block 3", (250, 200)),
    ("BMS", (400, 200)),
    ("Hospital", (570, 200)),
    ("Admin", (400, 350)),
    ("New Admin", (500, 350)),
    ("Food Court", (270, 350)),
    ("Bus Bay", (100, 60)),
    ("MLCP", (330, 60)),
    ("Gallery Hall 1,2,3", (520, 60)),
    ("Sports Complex", (660, 160)),
    ("Easwari Entrance", (180, 450)),
    ("SRM Main Entrance", (580, 450))
  ]

  /** The names of a table, in table order. */
  function Names(entries: seq<Entry>): (r: seq<string>)
    ensures |r| == |entries|
    ensures forall i :: 0 <= i < |entries| ==> r[i] == entries[i].0
  {
    if entries == [] then []
    else Names(entries[..|entries| - 1]) + [entries[|entries| - 1].0]
  }

  /** No name occurs twice in the table. */
  predicate DistinctNames(entries: seq<Entry>)
  {
    forall i, j :: 0 <= i < j < |entries| ==> entries[i].0 != entries[j].0
  }

  /** The location a table row describes. */
  function ToLocation(e: Entry): Location
  {
    Location(e.0, e.1.0, e.1.1)
  }

  /** The map built by folding the table from left to right, each row
      writing `{name, x, y}` under its name. The map has exactly the
      table's names as keys, and every value carries its own key as name. */
  function BuildLocations(entries: seq<Entry>): (m: map<string, Location>)
    ensures forall k :: k in m <==> k in Names(entries)
    ensures forall k :: k in m ==> m[k].name == k
  {
    if entries == [] then map[]
    else
      var last := entries[|entries| - 1];
      BuildLocations(entries[..|entries| - 1])[last.0 := ToLocation(last)]
  }

  /** The registry. */
  const Locations: map<string, Location> := BuildLocations(LocationData)

  /** The names offered for selection: the registry's keys in insertion order. */
  const LocationNames: seq<string> := Names(LocationData)

  /** With distinct names, the row for a name is what the map holds under it. */
  lemma {:induction false} BuildLocationsLookup(entries: seq<Entry>, i: nat)
    requires DistinctNames(entries)
    requires i < |entries|
    ensures entries[i].0 in BuildLocations(entries)
    ensures BuildLocations(entries)[entries[i].0] == ToLocation(entries[i])
  {
    var n := |entries|;
    if i < n - 1 {
      var prefix := entries[..n - 1];
      assert prefix[i] == entries[i];
      assert entries[i].0 != entries[n - 1].0;
      BuildLocationsLookup(prefix, i);
    }
  }

  /** With distinct names, the map has one key per row. */
  lemma {:induction false} BuildLocationsSize(entries: seq<Entry>)
    requires DistinctNames(entries)
    ensures |BuildLocations(entries)| == |entries|
  {
    if entries != [] {
      var n := |entries|;
      var prefix := entries[..n - 1];
      BuildLocationsSize(prefix);
      assert entries[n - 1].0 !in BuildLocations(prefix);
    }
  }

  /** A location lies inside the reference frame. */
  predicate InFrame(l: Location)
  {
    0 <= l.x <= FrameWidth && 0 <= l.y <= FrameHeight
  }

  /** If every row lies inside the frame, so does every value of the map. */
  lemma {:induction false} BuildLocationsInFrame(entries: seq<Entry>)
    requires forall i :: 0 <= i < |entries| ==> InFrame(ToLocation(entries[i]))
    ensures forall k :: k in BuildLocations(entries) ==> InFrame(BuildLocations(entries)[k])
  {
    if entries != [] {
      var prefix := entries[..|entries| - 1];
      assert forall i :: 0 <= i < |prefix| ==> prefix[i] == entries[i];
      BuildLocationsInFrame(prefix);
    }
  }

  lemma LocationDataDistinct()
    ensures DistinctNames(LocationData)
  {
  }

  /** Every registry entry is named by its key and holds the coordinates
      listed for that name in the table. */
  lemma RegistryMatchesTable(i: nat)
    requires i < |LocationData|
    ensures LocationData[i].0 in Locations
    ensures Locations[LocationData[i].0] == Location(LocationData[i].0, LocationData[i].1.0, LocationData[i].1.1)
  {
    LocationDataDistinct();
    BuildLocationsLookup(LocationData, i);
  }

  /** The name list holds exactly the registry's keys, each once: 13 names. */
  lemma LocationNamesAreKeys()
    ensures forall k :: k in Locations <==> k in LocationNames
    ensures forall i, j :: 0 <= i < j < |LocationNames| ==> LocationNames[i] != LocationNames[j]
    ensures |LocationNames| == |Locations| == 13
  {
    LocationDataDistinct();
    BuildLocationsSize(LocationData);
  }

  /** Every registered location lies inside the 800 x 600 reference frame. */
  lemma RegistryInFrame()
    ensures forall k :: k in Locations ==> InFrame(Locations[k])
  {
    BuildLocationsInFrame(LocationData);
  }
}
