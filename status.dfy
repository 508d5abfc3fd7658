/**
 * The order status lifecycle of the "Edit/Cancel order" screen: a per-status menu of
 * action labels, the label-to-status chain that applies the chosen label, and the
 * "Deliver Today" override offered afterwards.
 */
module OrderStatus {
  import opened Wrappers
  import opened Dates

  datatype Status = Open | Preparing | Ready | Closed | Cancelled | DeliverToday

  /** The status text the program stores and shows. */
  function Name(s: Status): string
  {
    match s
    case Open => "Open"
    case Preparing => "Preparing"
    case Ready => "Ready"
    case Closed => "Closed"
    case Cancelled => "Cancelled"
    case DeliverToday => "Deliver Today"
  }

  /** Python's `t in s` for strings: `t` occurs somewhere in `s`. */
  predicate Contains(s: string, t: string)
  {
    exists i :: 0 <= i <= |s| && t <= s[i..]
  }

  /** `status_options.get(status, [])`: the actions the menu offers for a status. */
  function Actions(s: Status): seq<string>
  {
    match s
    case Open => ["Cancel order", "Change to Preparing"]
    case Cancelled => ["Set back to Open"]
    case Preparing => ["Change to Ready"]
    case Ready => ["Change to Preparing", "Change to Closed"]
    case Closed => []
    case DeliverToday => []
  }

  /** The if/elif chain applied to a chosen action: the first keyword it contains names the new status. */
  function ActionTarget(action: string): Option<Status>
  {
    if Contains(action, "Cancel") then Some(Cancelled)
    else if Contains(action, "Preparing") then Some(Preparing)
    else if Contains(action, "Ready") then Some(Ready)
    else if Contains(action, "Closed") then Some(Closed)
    else if Contains(action, "Open") then Some(Open)
    else None
  }

  /** The lifecycle the menu is meant to implement, as a table of moves. */
  predicate CanMove(s: Status, t: Status)
  {
    (s == Open && (t == Cancelled || t == Preparing))
    || (s == Cancelled && t == Open)
    || (s == Preparing && t == Ready)
    || (s == Ready && (t == Preparing || t == Closed))
  }

  /** The status after the operator picks menu entry `choice` (0 is "Go back"). */
  function Step(s: Status, choice: nat): Status
    requires choice <= |Actions(s)|
  {
    if choice == 0 then s
    else
      match ActionTarget(Actions(s)[choice - 1])
      case Some(t) => t
      case None => s
  }

  /**
   * The status after the "Edit/Cancel order" screen: the chosen action, then, when the
   * order is a delivery whose date parses to `today` and the new status is not Ready,
   * "Deliver Today" if the operator confirms. Choosing "Go back" skips both.
   */
  function EditStatus(s: Status, choice: nat, isDelivery: bool, deliveryDate: string,
                      today: Date, confirm: bool): Status
    requires choice <= |Actions(s)|
  {
    if choice == 0 then s
    else
      var t := Step(s, choice);
      if isDelivery && deliveryDate != "" && ParseDate(deliveryDate) == Some(today) && t != Ready && confirm
      then DeliverToday
      else t
  }

  // ---------------------------------------------------------------------------
  // Substring facts

  /** `t` cannot occur in `s` when its first two characters never occur next to each other there. */
  lemma NotContainsByPair(s: string, t: string)
    requires |t| >= 2
    requires forall i :: 0 <= i < |s| - 1 ==> !(s[i] == t[0] && s[i + 1] == t[1])
    ensures !Contains(s, t)
  {
    forall i | 0 <= i <= |s| ensures !(t <= s[i..]) {
      assert i + 1 < |s| ==> s[i..][0] == s[i] && s[i..][1] == s[i + 1];
    }
  }

  lemma CancelTarget()
    ensures ActionTarget("Cancel order") == Some(Cancelled)
  {
    assert "Cancel" <= "Cancel order"[0..];
  }

  lemma PreparingTarget()
    ensures ActionTarget("Change to Preparing") == Some(Preparing)
  {
    NotContainsByPair("Change to Preparing", "Cancel");
    assert "Preparing" <= "Change to Preparing"[10..];
  }

  lemma OpenTarget()
    ensures ActionTarget("Set back to Open") == Some(Open)
  {
    NotContainsByPair("Set back to Open", "Cancel");
    NotContainsByPair("Set back to Open", "Preparing");
    NotContainsByPair("Set back to Open", "Ready");
    NotContainsByPair("Set back to Open", "Closed");
    assert "Open" <= "Set back to Open"[12..];
  }

  lemma ReadyTarget()
    ensures ActionTarget("Change to Ready") == Some(Ready)
  {
    NotContainsByPair("Change to Ready", "Cancel");
    NotContainsByPair("Change to Ready", "Preparing");
    assert "Ready" <= "Change to Ready"[10..];
  }

  lemma ClosedTarget()
    ensures ActionTarget("Change to Closed") == Some(Closed)
  {
    NotContainsByPair("Change to Closed", "Cancel");
    NotContainsByPair("Change to Closed", "Preparing");
    NotContainsByPair("Change to Closed", "Ready");
    assert "Closed" <= "Change to Closed"[10..];
  }

  /** Each action label is applied as the status it names. */
  lemma ActionTargets()
    ensures ActionTarget("Cancel order") == Some(Cancelled)
    ensures ActionTarget("Change to Preparing") == Some(Preparing)
    ensures ActionTarget("Set back to Open") == Some(Open)
    ensures ActionTarget("Change to Ready") == Some(Ready)
    ensures ActionTarget("Change to Closed") == Some(Closed)
  {
    CancelTarget();
    PreparingTarget();
    OpenTarget();
    ReadyTarget();
    ClosedTarget();
  }

  // ---------------------------------------------------------------------------
  // The menu implements the lifecycle table

  /** Every action the menu offers moves the order along the table. */
  lemma StepFollowsTable(s: Status, choice: nat)
    requires 1 <= choice <= |Actions(s)|
    ensures CanMove(s, Step(s, choice))
  {
    ActionTargets();
  }

  /** Every move of the table is offered by some menu entry. */
  lemma EveryMoveOffered(s: Status, t: Status)
    requires CanMove(s, t)
    ensures exists choice :: 1 <= choice <= |Actions(s)| && Step(s, choice) == t
  {
    ActionTargets();
    if s == Open && t == Cancelled { assert Step(s, 1) == t; }
    else if s == Open { assert Step(s, 2) == t; }
    else if s == Ready && t == Preparing { assert Step(s, 1) == t; }
    else if s == Ready { assert Step(s, 2) == t; }
    else { assert Step(s, 1) == t; }
  }

  /** Closed, and Deliver Today (absent from the table), offer no action at all; every other status does. */
  lemma TerminalStatuses(s: Status)
    ensures |Actions(s)| == 0 <==> (forall t :: !CanMove(s, t))
    ensures |Actions(s)| == 0 <==> (s == Closed || s == DeliverToday)
  {
    if s != Closed && s != DeliverToday {
      ActionTargets();
      StepFollowsTable(s, 1);
    }
  }

  /**
   * After a chosen action the order is Deliver Today exactly when it is a delivery, its
   * date parses to today, the action did not make it Ready, and the operator confirmed.
   */
  lemma DeliverTodayOverride(s: Status, choice: nat, isDelivery: bool, deliveryDate: string,
                             today: Date, confirm: bool)
    requires 1 <= choice <= |Actions(s)|
    ensures EditStatus(s, choice, isDelivery, deliveryDate, today, confirm) == DeliverToday
        <==> isDelivery && ParseDate(deliveryDate) == Some(today) && Step(s, choice) != Ready && confirm
    ensures EditStatus(s, choice, isDelivery, deliveryDate, today, confirm) != DeliverToday
        ==> EditStatus(s, choice, isDelivery, deliveryDate, today, confirm) == Step(s, choice)
  {
    StepFollowsTable(s, choice);
  }

  /** Even an order that was just closed is turned into Deliver Today when its date is today and the operator confirms. */
  lemma ClosedOrderOverridden(deliveryDate: string, today: Date)
    requires ParseDate(deliveryDate) == Some(today)
    ensures Step(Ready, 2) == Closed
    ensures EditStatus(Ready, 2, true, deliveryDate, today, true) == DeliverToday
  {
    ActionTargets();
  }
}
