/**
 * The side of the city each of Chicago's 77 community areas belongs to.
 *
 * The table lists nine sides, each with its areas; the lookup from area to
 * side is built from it by a comprehension in which a later entry for the
 * same area would replace an earlier one.
 */
module CommunityAreas {

  import opened Wrappers

  /** A side of the city and the community areas it takes in, in the order the table lists them. */
  datatype Side = Side(name: string, areas: seq<int>)

  const Sides: seq<Side> := [
    Side("Far North Side", [76, 9, 10, 11, 12, 13, 14, 2, 4, 3, 1, 77]),
    Side("Northwest Side", [17, 18, 19, 15, 16, 20]),
    Side("North Side", [21, 22, 5, 6, 7]),
    Side("West Side", [25, 23, 24, 26, 27, 28, 29, 30, 31]),
    Side("Central", [8, 32, 33]),
    Side("South Side", [60, 34, 35, 37, 38, 36, 39, 40, 41, 42, 69, 43]),
    Side("Southwest Side", [56, 64, 57, 62, 65, 58, 63, 66, 59, 61, 67, 68]),
    Side("Far Southwest Side", [70, 71, 72, 73, 74, 75]),
    Side("Far Southeast Side", [44, 45, 47, 48, 46, 49, 50, 51, 52, 53, 54, 55])]

  /**
   * The dictionary comprehension over the sides and their areas: every listed
   * area is a key, mapped to the side listing it (the last one, were there two).
   */
  function SideMap(sides: seq<Side>): (m: map<int, string>)
    ensures forall a :: a in m <==> exists i :: 0 <= i < |sides| && a in sides[i].areas
    ensures forall a :: a in m ==> exists i :: 0 <= i < |sides| && a in sides[i].areas && m[a] == sides[i].name
  {
    if sides == [] then map[]
    else
      var n := |sides| - 1;
      var init := SideMap(sides[..n]);
      SideMapStep(sides, init);
      init + map a | a in sides[n].areas :: sides[n].name
  }

  /** The induction step of SideMap: adding the last side's entries to the map of the others. */
  lemma SideMapStep(sides: seq<Side>, init: map<int, string>)
    requires sides != []
    requires forall a :: a in init <==> exists i :: 0 <= i < |sides| - 1 && a in sides[i].areas
    requires forall a :: a in init ==> exists i :: 0 <= i < |sides| - 1 && a in sides[i].areas && init[a] == sides[i].name
    ensures var n := |sides| - 1;
      var m := init + map a | a in sides[n].areas :: sides[n].name;
      && (forall a :: a in m <==> exists i :: 0 <= i < |sides| && a in sides[i].areas)
      && (forall a :: a in m ==> exists i :: 0 <= i < |sides| && a in sides[i].areas && m[a] == sides[i].name)
  {
    var n := |sides| - 1;
    var m := init + map a | a in sides[n].areas :: sides[n].name;
    forall a | a in m ensures exists i :: 0 <= i < |sides| && a in sides[i].areas && m[a] == sides[i].name {
      if a !in sides[n].areas {
        var i :| 0 <= i < n && a in sides[i].areas && init[a] == sides[i].name;
      }
    }
  }

  /** `area_to_side`: defined on exactly the community areas 1 to 77. */
  function AreaToSide(): (m: map<int, string>)
    ensures forall a :: a in m <==> 1 <= a <= 77
  {
    SideMapDomain();
    SideMap(Sides)
  }

  lemma SideMapDomain()
    ensures forall a :: a in SideMap(Sides) <==> 1 <= a <= 77
  {
    forall a ensures a in SideMap(Sides) <==> 1 <= a <= 77 {
      SidesPartitionAreas(a);
    }
  }

  /** `Series.map(area_to_side)` on one area number: an area not in the table gets no side. */
  function SideOfArea(a: int): (s: Option<string>)
    ensures s.Some? <==> a in AreaToSide()
    ensures s.Some? ==> s.value == AreaToSide()[a]
  {
    if a in AreaToSide() then Some(AreaToSide()[a]) else None
  }

  /** The same assignment written as ranges of area numbers, independently of the table's order. */
  function SideByRange(a: int): (s: Option<string>)
    ensures s.Some? <==> 1 <= a <= 77
  {
    if 1 <= a <= 4 || 9 <= a <= 14 || 76 <= a <= 77 then Some("Far North Side")
    else if 15 <= a <= 20 then Some("Northwest Side")
    else if 5 <= a <= 7 || 21 <= a <= 22 then Some("North Side")
    else if 23 <= a <= 31 then Some("West Side")
    else if a == 8 || 32 <= a <= 33 then Some("Central")
    else if 34 <= a <= 43 || a == 60 || a == 69 then Some("South Side")
    else if 56 <= a <= 59 || 61 <= a <= 68 then Some("Southwest Side")
    else if 70 <= a <= 75 then Some("Far Southwest Side")
    else if 44 <= a <= 55 then Some("Far Southeast Side")
    else None
  }

  /** Each side's list holds exactly the areas the range description gives that side. */
  lemma SideListMatchesRanges(i: int, a: int)
    requires 0 <= i < |Sides|
    ensures a in Sides[i].areas <==> SideByRange(a) == Some(Sides[i].name)
  {
    if i == 0 {
      FarNorthListed(a);
    } else if i == 1 {
      NorthwestListed(a);
    } else if i == 2 {
      NorthListed(a);
    } else if i == 3 {
      WestListed(a);
    } else if i == 4 {
      CentralListed(a);
    } else if i == 5 {
      SouthListed(a);
    } else if i == 6 {
      SouthwestListed(a);
    } else if i == 7 {
      FarSouthwestListed(a);
    } else {
      FarSoutheastListed(a);
    }
  }

  lemma FarNorthListed(a: int)
    ensures a in Sides[0].areas <==> SideByRange(a) == Some(Sides[0].name)
  {
  }

  lemma NorthwestListed(a: int)
    ensures a in Sides[1].areas <==> SideByRange(a) == Some(Sides[1].name)
  {
  }

  lemma NorthListed(a: int)
    ensures a in Sides[2].areas <==> SideByRange(a) == Some(Sides[2].name)
  {
  }

  lemma WestListed(a: int)
    ensures a in Sides[3].areas <==> SideByRange(a) == Some(Sides[3].name)
  {
  }

  lemma CentralListed(a: int)
    ensures a in Sides[4].areas <==> SideByRange(a) == Some(Sides[4].name)
  {
  }

  lemma SouthListed(a: int)
    ensures a in Sides[5].areas <==> SideByRange(a) == Some(Sides[5].name)
  {
  }

  lemma SouthwestListed(a: int)
    ensures a in Sides[6].areas <==> SideByRange(a) == Some(Sides[6].name)
  {
  }

  lemma FarSouthwestListed(a: int)
    ensures a in Sides[7].areas <==> SideByRange(a) == Some(Sides[7].name)
  {
  }

  lemma FarSoutheastListed(a: int)
    ensures a in Sides[8].areas <==> SideByRange(a) == Some(Sides[8].name)
  {
  }

  /** The position in the table of the side the range description gives an area. */
  function RangeSideIndex(a: int): (i: int)
    requires 1 <= a <= 77
    ensures 0 <= i < |Sides| && SideByRange(a) == Some(Sides[i].name)
  {
    var name := SideByRange(a).value;
    if name == "Far North Side" then 0
    else if name == "Northwest Side" then 1
    else if name == "North Side" then 2
    else if name == "West Side" then 3
    else if name == "Central" then 4
    else if name == "South Side" then 5
    else if name == "Southwest Side" then 6
    else if name == "Far Southwest Side" then 7
    else 8
  }

  /** No two sides share a name. */
  lemma SideNamesDistinct(i: int, j: int)
    requires 0 <= i < j < |Sides|
    ensures Sides[i].name != Sides[j].name
  {
  }

  /**
   * The side lists partition the areas 1 to 77: every one of them is listed
   * under some side, no other number is listed, and no area under two sides.
   */
  lemma SidesPartitionAreas(a: int)
    ensures 1 <= a <= 77 ==> exists i :: 0 <= i < |Sides| && a in Sides[i].areas
    ensures forall i :: 0 <= i < |Sides| && a in Sides[i].areas ==> 1 <= a <= 77
    ensures forall i, j :: 0 <= i < j < |Sides| && a in Sides[i].areas ==> a !in Sides[j].areas
  {
    forall i | 0 <= i < |Sides| && a in Sides[i].areas ensures 1 <= a <= 77 {
      SideListMatchesRanges(i, a);
    }
    forall i, j | 0 <= i < j < |Sides| && a in Sides[i].areas ensures a !in Sides[j].areas {
      SideListMatchesRanges(i, a);
      SideListMatchesRanges(j, a);
      SideNamesDistinct(i, j);
    }
    if 1 <= a <= 77 {
      var i := RangeSideIndex(a);
      SideListMatchesRanges(i, a);
    }
  }

  /** The lookup is defined on exactly the areas 1 to 77 and agrees with the range description. */
  lemma AreaToSideMatchesRanges(a: int)
    ensures a in AreaToSide() <==> 1 <= a <= 77
    ensures SideOfArea(a) == SideByRange(a)
  {
    SidesPartitionAreas(a);
    if a in AreaToSide() {
      var i :| 0 <= i < |Sides| && a in Sides[i].areas && AreaToSide()[a] == Sides[i].name;
      SideListMatchesRanges(i, a);
    }
  }
}
