/** Presence categories: the colour each one is painted with, and the
  * priority order among the four recognised categories. */
module Presence {

  /** The colour code used for a presence category; any string other than
    * the three named categories (including "none" and "") is light grey. */
  function StateColor(presence: string): (color: string)
    ensures color == "#3CB371" <==> presence == "direct"
    ensures color == "#FFA500" <==> presence == "distributor"
    ensures color == "#4682B4" <==> presence == "importer"
    ensures color == "#dddddd" <==> presence != "direct" && presence != "distributor" && presence != "importer"
  {
    if presence == "direct" then "#3CB371"
    else if presence == "distributor" then "#FFA500"
    else if presence == "importer" then "#4682B4"
    else "#dddddd"
  }

  /** The four category names the priority order knows about. */
  predicate Known(presence: string)
  {
    presence == "none" || presence == "importer" || presence == "distributor" || presence == "direct"
  }

  /** Position in the order none < importer < distributor < direct;
    * every other string sits at the bottom with "none". */
  function Level(presence: string): (r: nat)
    ensures r <= 3
    ensures r == 0 <==> presence != "importer" && presence != "distributor" && presence != "direct"
  {
    if presence == "direct" then 3
    else if presence == "distributor" then 2
    else if presence == "importer" then 1
    else 0
  }

  /** The category name at a position of the order. */
  function LevelName(r: nat): (name: string)
    requires r <= 3
    ensures Known(name)
  {
    if r == 3 then "direct"
    else if r == 2 then "distributor"
    else if r == 1 then "importer"
    else "none"
  }

  /** LevelName followed by Level gives back the position. */
  lemma LevelOfName(r: nat)
    requires r <= 3
    ensures Level(LevelName(r)) == r
  {
  }

  /** Level followed by LevelName gives back a recognised category. */
  lemma NameOfLevel(presence: string)
    requires Known(presence)
    ensures LevelName(Level(presence)) == presence
  {
  }
}
