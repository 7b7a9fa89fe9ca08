/**
 * The pricing rule of `calc_price` (app.py): the hall's base price, times the
 * weekend coefficient on Saturday and Sunday, times 1.3 for a start hour in
 * [17, 21), each product rounded, then the add-on prices added flat.
 * Coefficients are exact: the weekend coefficient in hundredths, 1.3 as 13/10.
 */
module Pricing {
  import opened Wrappers
  import Dates

  /** A hall of the studio; `weekendCoefPct` is the weekend coefficient times 100. */
  datatype Hall = Hall(id: string, title: string, basePrice: int, weekendCoefPct: nat)

  /** An add-on with the price it was booked at. */
  datatype Addon = Addon(name: string, price: int)

  /** The three halls the studio is seeded with (app.py, `HALLS_SEED`). */
  const HallA: Hall := Hall("A", "Daylight", 10000, 110)
  const HallB: Hall := Hall("B", "Loft", 12000, 115)
  const HallC: Hall := Hall("C", "Cyclorama", 15000, 120)

  /** Prime time: the start hour lies in [17, 21). */
  const PrimeFromHour: nat := 17
  const PrimeToHour: nat := 21
  /** The prime-time coefficient 1.3 as a fraction. */
  const PrimeNum: nat := 13
  const PrimeDen: nat := 10

  /**
   * `n / d` rounded to the nearest integer, ties to the even neighbour, as
   * Python's `round` does.
   */
  function RoundHalfEven(n: int, d: int): (r: int)
    requires d > 0
    ensures 2 * (n - r * d) <= d && 2 * (r * d - n) <= d
    ensures (2 * (n - r * d) == d || 2 * (r * d - n) == d) ==> r % 2 == 0
  {
    var q, rem := n / d, n % d;
    assert n == q * d + rem;
    if 2 * rem < d then q
    else if 2 * rem > d then q + 1
    else if q % 2 == 0 then q
    else q + 1
  }

  lemma MulStep(k: int, d: int)
    requires d > 0
    ensures k >= 1 ==> k * d >= d
    ensures k >= 2 ==> k * d >= 2 * d
    ensures k <= -1 ==> k * d <= -d
  {
  }

  /** Two integers within half of `d` of the same `n` are equal or neighbours. */
  lemma CloseMultiples(n: int, d: int, r1: int, r2: int)
    requires d > 0
    requires 2 * (n - r1 * d) <= d && 2 * (r1 * d - n) <= d
    requires 2 * (n - r2 * d) <= d && 2 * (r2 * d - n) <= d
    ensures -1 <= r1 - r2 <= 1
    ensures r1 - r2 == 1 ==> 2 * (r1 * d - n) == d && 2 * (n - r2 * d) == d
  {
    var k := r1 - r2;
    assert r1 * d - r2 * d == k * d;
    MulStep(k, d);
    MulStep(-k, d);
    if k == 1 {
      assert r1 * d == r2 * d + d;
    }
  }

  /** The two conditions above leave only one integer: they specify rounding completely. */
  lemma RoundHalfEvenUnique(n: int, d: int, r: int)
    requires d > 0
    requires 2 * (n - r * d) <= d && 2 * (r * d - n) <= d
    requires (2 * (n - r * d) == d || 2 * (r * d - n) == d) ==> r % 2 == 0
    ensures r == RoundHalfEven(n, d)
  {
    var r0 := RoundHalfEven(n, d);
    CloseMultiples(n, d, r, r0);
    CloseMultiples(n, d, r0, r);
  }

  predicate IsPrimeTime(startMin: nat)
  {
    PrimeFromHour <= startMin / 60 < PrimeToHour
  }

  /** The price after the weekend stage. */
  function WeekendStage(hall: Hall, weekend: bool): int
  {
    if weekend then RoundHalfEven(hall.basePrice * hall.weekendCoefPct, 100) else hall.basePrice
  }

  /** The price after the prime-time stage, applied to the weekend-stage price. */
  function SlotPrice(hall: Hall, weekend: bool, startMin: nat): int
  {
    var p := WeekendStage(hall, weekend);
    if IsPrimeTime(startMin) then RoundHalfEven(p * PrimeNum, PrimeDen) else p
  }

  /** The sum of the add-on prices, in booking order. */
  function SumPrices(addons: seq<Addon>): int
  {
    if addons == [] then 0 else SumPrices(addons[..|addons| - 1]) + addons[|addons| - 1].price
  }

  /** The whole price of a booking, given whether its date is a weekend. */
  function Price(hall: Hall, weekend: bool, startMin: nat, addons: seq<Addon>): int
  {
    SlotPrice(hall, weekend, startMin) + SumPrices(addons)
  }

  /**
   * `calc_price`: fails where `is_weekend` raises (a date `datetime` rejects);
   * otherwise the stages in order, the add-ons summed one by one.
   */
  method CalcPrice(hall: Hall, dateIso: string, startMin: nat, addons: seq<Addon>) returns (r: Option<int>)
    ensures r.None? <==> Dates.ParseDate(dateIso).None?
    ensures r.Some? ==> r.value == Price(hall, Dates.IsWeekend(dateIso).value, startMin, addons)
  {
    var weekend := Dates.IsWeekend(dateIso);
    if weekend.None? {
      return None;
    }
    var price := hall.basePrice;
    if weekend.value {
      price := RoundHalfEven(price * hall.weekendCoefPct, 100);
    }
    if PrimeFromHour <= startMin / 60 < PrimeToHour {
      price := RoundHalfEven(price * PrimeNum, PrimeDen);
    }
    var i := 0;
    while i < |addons|
      invariant 0 <= i <= |addons|
      invariant price == SlotPrice(hall, weekend.value, startMin) + SumPrices(addons[..i])
    {
      assert addons[..i + 1][..i] == addons[..i];
      price := price + addons[i].price;
      i := i + 1;
    }
    assert addons[..i] == addons;
    return Some(price);
  }

  /** Add-ons are never scaled: each one adds exactly its own price. */
  lemma AddonsAddFlat(hall: Hall, weekend: bool, startMin: nat, addons: seq<Addon>, extra: Addon)
    ensures Price(hall, weekend, startMin, addons + [extra])
         == Price(hall, weekend, startMin, addons) + extra.price
  {
    assert (addons + [extra])[..|addons|] == addons;
  }

  /** On a weekday outside prime time the price is the base price plus the add-ons. */
  lemma PlainSlotPrice(hall: Hall, startMin: nat, addons: seq<Addon>)
    requires !IsPrimeTime(startMin)
    ensures Price(hall, false, startMin, addons) == hall.basePrice + SumPrices(addons)
  {
  }

  /**
   * The surcharges compound: on a weekend in prime time the 1.3 factor applies
   * to the rounded weekend price, not to the base price.
   */
  lemma SurchargesCompound(hall: Hall, startMin: nat)
    requires IsPrimeTime(startMin)
    ensures SlotPrice(hall, true, startMin)
         == RoundHalfEven(RoundHalfEven(hall.basePrice * hall.weekendCoefPct, 100) * 13, 10)
  {
  }

  lemma RoundHalfEvenMonotone(n1: int, n2: int, d: int)
    requires d > 0 && n1 <= n2
    ensures RoundHalfEven(n1, d) <= RoundHalfEven(n2, d)
  {
    var r1, r2 := RoundHalfEven(n1, d), RoundHalfEven(n2, d);
    if r1 > r2 {
      var k := r1 - r2;
      assert r1 * d - r2 * d == k * d;
      MulStep(k, d);
      if k == 1 {
        assert false;
      }
    }
  }

  /** With coefficients of at least 1, neither surcharge lowers the price. */
  lemma SurchargesNeverLower(hall: Hall, weekend: bool, startMin: nat)
    requires hall.basePrice >= 0 && hall.weekendCoefPct >= 100
    ensures hall.basePrice <= WeekendStage(hall, weekend) <= SlotPrice(hall, weekend, startMin)
  {
    if weekend {
      RoundHalfEvenMonotone(hall.basePrice * 100, hall.basePrice * hall.weekendCoefPct, 100);
      RoundHalfEvenUnique(hall.basePrice * 100, 100, hall.basePrice);
    }
    var p := WeekendStage(hall, weekend);
    if IsPrimeTime(startMin) {
      RoundHalfEvenMonotone(p * 10, p * 13, 10);
      RoundHalfEvenUnique(p * 10, 10, p);
    }
  }

  /** Ties go to the even neighbour: 2.5 rounds to 2 and 3.5 to 4. */
  lemma RoundHalfEvenTies()
    ensures RoundHalfEven(25, 10) == 2 && RoundHalfEven(35, 10) == 4
    ensures RoundHalfEven(-25, 10) == -2
  {
  }

  /** Seed-hall prices at 18:00: hall A costs 14300 on a weekend and 13000 on a weekday. */
  lemma SeedHallPrimeTimePrices()
    ensures SlotPrice(HallA, true, 18 * 60) == 14300
    ensures SlotPrice(HallA, false, 18 * 60) == 13000
    ensures SlotPrice(HallB, true, 18 * 60) == 17940
    ensures SlotPrice(HallC, true, 18 * 60) == 23400
  {
  }
}
