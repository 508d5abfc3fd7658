/**
 * Orders: identifiers from the class-level `Order.order_counter`, the `Order` object,
 * its total (`calculate_total`) and the status changes of the "Edit/Cancel order" screen.
 */
module Orders {
  import opened Wrappers
  import opened Text
  import opened Numerals
  import opened Dates
  import opened Pricing
  import opened OrderStatus
  import opened Catalog

  /** `f"BBO-25-{n:04d}"` */
  function OrderId(n: nat): string
  {
    "BBO-25-" + PadZeros(n, 4)
  }

  /** Different counter values give different identifiers, also past 9999. */
  lemma OrderIdInjective(m: nat, n: nat)
    requires OrderId(m) == OrderId(n)
    ensures m == n
  {
    assert PadZeros(m, 4) == OrderId(m)[7..];
    assert PadZeros(n, 4) == OrderId(n)[7..];
    PadZerosInjective(m, n, 4);
  }

  /** `Order.order_counter`: one counter shared by every order, starting at 1. */
  class OrderCounter {
    var next: nat
    /** The identifiers handed out so far, oldest first. */
    ghost var issued: seq<string>

    ghost predicate Valid()
      reads this
    {
      next >= 1 && |issued| == next - 1
      && forall i :: 0 <= i < |issued| ==> issued[i] == OrderId(i + 1)
    }

    constructor()
      ensures Valid() && next == 1 && issued == []
    {
      next := 1;
      issued := [];
    }

    /** The identifier for the current counter value, then the increment; it was never handed out before. */
    method Take() returns (id: string)
      requires Valid()
      modifies this
      ensures Valid()
      ensures id == OrderId(old(next)) && next == old(next) + 1
      ensures id !in old(issued) && issued == old(issued) + [id]
    {
      id := OrderId(next);
      if id in issued {
        var i :| 0 <= i < |issued| && issued[i] == id;
        OrderIdInjective(i + 1, next);
        assert false;
      }
      next := next + 1;
      issued := issued + [id];
    }
  }

  /** An order (`Order`): what was bought, for whom, how it is handed over, and its status. */
  class Order {
    const orderId: string
    const product: Product
    const addon: Option<Addon>
    const customerName: string
    const recipientName: string
    const message: string
    const deliveryAddress: string
    const deliveryDate: string
    const sameDay: bool
    const isDelivery: bool
    var status: Status

    /** `Order(...)`: takes the next identifier from the shared counter and starts Open. */
    constructor(counter: OrderCounter, product: Product, addon: Option<Addon>, customerName: string,
                recipientName: string, message: string, deliveryAddress: string, deliveryDate: string,
                sameDay: bool, isDelivery: bool)
      requires counter.Valid()
      modifies counter
      ensures counter.Valid() && counter.next == old(counter.next) + 1
      ensures orderId == OrderId(old(counter.next)) && orderId !in old(counter.issued)
      ensures counter.issued == old(counter.issued) + [orderId]
      ensures status == Open
      ensures this.product == product && this.addon == addon && this.deliveryDate == deliveryDate
      ensures this.sameDay == sameDay && this.isDelivery == isDelivery
      ensures this.customerName == customerName && this.recipientName == recipientName
      ensures this.message == message && this.deliveryAddress == deliveryAddress
    {
      var id := counter.Take();
      orderId := id;
      this.product := product;
      this.addon := addon;
      this.customerName := customerName;
      this.recipientName := recipientName;
      this.message := message;
      this.deliveryAddress := deliveryAddress;
      this.deliveryDate := deliveryDate;
      this.sameDay := sameDay;
      this.isDelivery := isDelivery;
      status := Open;
    }

    /** The add-on's price at this moment, if the order has an add-on. */
    function AddonPrice(): Option<int>
      reads if addon.Some? then {addon.value} else {}
    {
      if addon.Some? then Some(addon.value.price) else None
    }

    /**
     * `calculate_total`, on the current prices of the product and add-on: the items for a
     * pickup; for a delivery the items plus 35, plus 10 when the date is a weekend day,
     * plus 35 when same-day.
     */
    function Total(): (t: int)
      reads product, if addon.Some? then {addon.value} else {}
      ensures !isDelivery ==> t == ItemsPrice(product.price, AddonPrice())
      ensures isDelivery ==>
        t == ItemsPrice(product.price, AddonPrice()) + DeliveryFee
        + (if WeekendDelivery(deliveryDate) then WeekendSurcharge else 0) + (if sameDay then SameDayFee else 0)
    {
      PickupTotal(product.price, AddonPrice(), deliveryDate, sameDay);
      DeliveryTotal(product.price, AddonPrice(), deliveryDate, sameDay);
      OrderTotal(product.price, AddonPrice(), isDelivery, deliveryDate, sameDay)
    }

    /** `update_status` */
    method UpdateStatus(s: Status)
      modifies this
      ensures status == s
    {
      status := s;
    }

    /**
     * The "Edit/Cancel order" screen on this order: menu entry `choice` of the current
     * status (0 goes back), then the "Deliver Today" question, asked when the order is a
     * delivery whose date parses to `today` and is not Ready; `answer` is the reply typed,
     * which confirms when it reads "Y" after `strip().upper()`.
     */
    method Edit(choice: nat, today: Date, answer: string)
      requires choice <= |Actions(status)|
      modifies this
      ensures status == EditStatus(old(status), choice, isDelivery, deliveryDate, today, Upper(Strip(answer)) == "Y")
    {
      if choice == 0 {
        return;
      }
      var selected := Actions(status)[choice - 1];
      match ActionTarget(selected) {
        case Some(t) =>
          UpdateStatus(t);
        case None =>
      }
      assert status == Step(old(status), choice);
      if isDelivery && deliveryDate != "" {
        var parsed := ParseDate(deliveryDate);
        if parsed == Some(today) && status != Ready {
          var reply := Upper(Strip(answer));
          if reply == "Y" {
            UpdateStatus(DeliverToday);
          }
        }
      }
    }
  }
}
