// The choice of a planet's asset set from a uniform draw in 0..2.

module Planet {
  import opened Wrappers

  /**
    select_planet maps the draw 0, 1, 2 to the Earth, Mars and Venus assets.
    The draw is a parameter here; any other value falls through every branch,
    and the function then returns nothing.
  */
  function SelectPlanet<T>(draw: int, earth: T, mars: T, venus: T): (r: Option<T>)
    ensures r.Some? <==> 0 <= draw <= 2
    ensures draw == 0 ==> r == Some(earth)
    ensures draw == 1 ==> r == Some(mars)
    ensures draw == 2 ==> r == Some(venus)
  {
    if draw == 0 then Some(earth)
    else if draw == 1 then Some(mars)
    else if draw == 2 then Some(venus)
    else None
  }

  /** Each of the three asset sets is chosen by exactly one draw when they are distinct. */
  lemma {:induction false} EachPlanetHasOneDraw<T>(earth: T, mars: T, venus: T, choice: T)
    requires earth != mars && mars != venus && earth != venus
    requires choice == earth || choice == mars || choice == venus
    ensures exists draw :: 0 <= draw <= 2 && SelectPlanet(draw, earth, mars, venus) == Some(choice)
    ensures forall d1, d2 ::
      (SelectPlanet(d1, earth, mars, venus) == Some(choice) && SelectPlanet(d2, earth, mars, venus) == Some(choice)) ==>
      d1 == d2
  {
    var draw := if choice == earth then 0 else if choice == mars then 1 else 2;
    assert SelectPlanet(draw, earth, mars, venus) == Some(choice);
  }
}
