/**
 * The price of an order (`Order.calculate_total`): the product, the optional add-on,
 * and for deliveries a flat fee, a weekend surcharge and a same-day fee. All amounts
 * are in cents.
 */
module Pricing {
  import opened Wrappers
  import opened Numerals
  import opened Dates

  const DeliveryFee: int := 3500
  const WeekendSurcharge: int := 1000
  const SameDayFee: int := 3500

  /** The delivery date parses as `DD/MM/YYYY` and falls on a Saturday or Sunday. */
  predicate WeekendDelivery(deliveryDate: string)
  {
    ParseDate(deliveryDate).Some? && IsWeekend(ParseDate(deliveryDate).value)
  }

  /**
   * The delivery charge of `calculate_total`: 35, raised by 10 when the date parses and
   * `weekday() >= 5`; an empty or unparseable date is silently charged as a weekday.
   */
  function DeliveryCharge(deliveryDate: string): (c: int)
    ensures c == DeliveryFee || c == DeliveryFee + WeekendSurcharge
    ensures c == DeliveryFee + WeekendSurcharge <==> WeekendDelivery(deliveryDate)
    ensures ParseDate(deliveryDate) == None ==> c == DeliveryFee
  {
    var charge := DeliveryFee;
    if deliveryDate != "" then
      match ParseDate(deliveryDate)
      case Some(d) => if Weekday(d) >= 5 then charge + WeekendSurcharge else charge
      case None => charge
    else
      charge
  }

  /** `Order.calculate_total`, on the prices the order refers to at the moment it is called. */
  function OrderTotal(productPrice: int, addonPrice: Option<int>, isDelivery: bool,
                      deliveryDate: string, sameDay: bool): (total: int)
  {
    var total := productPrice + (if addonPrice.Some? then addonPrice.value else 0);
    if isDelivery then
      total + DeliveryCharge(deliveryDate) + (if sameDay then SameDayFee else 0)
    else
      total
  }

  /** The merchandise: the product price plus the add-on price, or nothing when there is no add-on. */
  function ItemsPrice(productPrice: int, addonPrice: Option<int>): int
  {
    match addonPrice
    case None => productPrice
    case Some(a) => productPrice + a
  }

  /** A pickup costs the items alone: the delivery date and the same-day flag change nothing. */
  lemma PickupTotal(productPrice: int, addonPrice: Option<int>, deliveryDate: string, sameDay: bool)
    ensures OrderTotal(productPrice, addonPrice, false, deliveryDate, sameDay) == ItemsPrice(productPrice, addonPrice)
  {
  }

  /** A delivery costs the items plus 35, plus 10 on a weekend date, plus 35 when same-day. */
  lemma DeliveryTotal(productPrice: int, addonPrice: Option<int>, deliveryDate: string, sameDay: bool)
    ensures OrderTotal(productPrice, addonPrice, true, deliveryDate, sameDay)
         == ItemsPrice(productPrice, addonPrice) + DeliveryFee
            + (if WeekendDelivery(deliveryDate) then WeekendSurcharge else 0)
            + (if sameDay then SameDayFee else 0)
  {
  }

  /**
   * The delivery charge `get_summary` prints: 35, replaced by 45 when the date parses to a
   * weekend. It is computed separately from `calculate_total`.
   */
  function SummaryDeliveryCharge(deliveryDate: string): int
  {
    if deliveryDate != "" && ParseDate(deliveryDate).Some? && Weekday(ParseDate(deliveryDate).value) >= 5
    then 4500 else 3500
  }

  /** The total equals the items plus the charges the summary lists, so the printed breakdown adds up. */
  lemma SummaryAddsUp(productPrice: int, addonPrice: Option<int>, deliveryDate: string, sameDay: bool)
    ensures OrderTotal(productPrice, addonPrice, true, deliveryDate, sameDay)
         == ItemsPrice(productPrice, addonPrice) + SummaryDeliveryCharge(deliveryDate)
            + (if sameDay then SameDayFee else 0)
  {
  }

  /** A 50.00 product delivered on a weekday (Friday 17/10/2025) costs 85.00, or 120.00 same-day. */
  lemma WeekdayExamples()
    ensures OrderTotal(5000, None, true, "17/10/2025", false) == 8500
    ensures OrderTotal(5000, None, true, "17/10/2025", true) == 12000
  {
    FridayParses();
    FridayIsWeekday();
    assert !WeekendDelivery("17/10/2025");
  }

  /** The same product delivered same-day on a Saturday (18/10/2025) costs 130.00. */
  lemma SaturdayExample()
    ensures OrderTotal(5000, None, true, "18/10/2025", true) == 13000
  {
    SaturdayParses();
    SaturdayIsWeekend();
    assert WeekendDelivery("18/10/2025");
  }

  lemma FridayIsWeekday()
    ensures ValidDate(Date(17, 10, 2025)) && Weekday(Date(17, 10, 2025)) == 4
  {
    assert DaysBeforeYear(2025) == 739251;
  }

  lemma FridayParses()
    ensures ParseDate("17/10/2025") == Some(Date(17, 10, 2025))
  {
    FormatDateRoundTrip(Date(17, 10, 2025));
    assert FormatDate(Date(17, 10, 2025)) == "17/10/2025" by {
      assert PadZeros(17, 2) == "17" by { assert NatToDigits(17) == NatToDigits(1) + [DigitChar(7)]; }
      assert PadZeros(10, 2) == "10" by { assert NatToDigits(10) == NatToDigits(1) + [DigitChar(0)]; }
      assert PadZeros(2025, 4) == "2025" by {
        assert NatToDigits(2025) == NatToDigits(202) + [DigitChar(5)];
        assert NatToDigits(202) == NatToDigits(20) + [DigitChar(2)];
        assert NatToDigits(20) == NatToDigits(2) + [DigitChar(0)];
      }
    }
  }
}
