/** The completion percentages the dashboards show, before `Math.round`:
    `whole > 0 ? (part / whole) * 100 : 0`. */
module Percent {

  function Of(part: nat, whole: nat): (r: real)
    ensures whole == 0 ==> r == 0.0
    ensures r >= 0.0
    ensures part <= whole ==> r <= 100.0
    ensures whole > 0 && part == whole ==> r == 100.0
  {
    if whole > 0 then
      var ratio := part as real / whole as real;
      assert ratio * whole as real == part as real;
      ratio * 100.0
    else 0.0
  }
}
