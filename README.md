# Beautiful Blooms — a verified model of the shop's logic

Beautiful Blooms is a console manager for a flower shop. It keeps a catalog of bouquets
("blooms") and add-ons in two comma-separated text files. It also takes orders, prices them
and moves them through a status lifecycle. This project models the logic inside
`BeautifulBlooms/main.py` in Dafny and proves what that code promises.

Modules, one concept each:

- `Text` (`text.dfy`): the Python string operations the program relies on:
  - `str.strip`, `str.split`, ASCII `str.upper`;
  - reading a text file line by line and writing lines with `"\n"`.
- `Numerals` (`numerals.dfy`): prices as whole numbers of cents.
  - `float(text)` for decimal price texts, and `str(price)` as written to the files.
  - The zero padding of `f"{n:03d}"`/`f"{n:04d}"`.
- `Dates` (`dates.dfy`): `datetime.strptime(text, "%d/%m/%Y")` as a parser returning
  `Option<Date>`, with Gregorian month lengths and leap years, and `weekday()` (Monday is 0).
- `Pricing` (`pricing.dfy`): `Order.calculate_total` on the prices and the order's flags.
- `OrderStatus` (`status.dfy`): the "Edit/Cancel order" screen of `view_orders`:
  - the per-status action menu;
  - the action-to-status mapping;
  - the "Deliver Today" override.
- `Codes` (`codes.dfy`): `generate_unique_code`, as a method with a loop.
- `Records` (`records.dfy`): the product and add-on line formats.
  - The line-by-line load as a fold over the lines.
  - The save/load round trip.
- `Catalog` (`catalog.dfy`): the objects the program mutates.
  - The `Product` and `Addon` classes with `update_price`, `update_status` and `add_rating`.
  - An insertion-ordered dictionary class.
  - The rating step after an order.
- `Inventory` (`inventory.dfy`): the inventory screens, as methods on the dictionaries:
  - `load_products`/`load_addons`;
  - `view_update_blooms`/`view_update_addons`;
  - `add_new_bloom`/`add_new_addon`.

  Each method is proved against a pure function of the catalog's table view.
- `Display` (`display.dfy`): the filter and the two stable sorts of `display_products`.
- `Orders` (`orders.dfy`): the `Order` class:
  - the shared order counter and identifiers;
  - the total on the current product and add-on prices;
  - the status edit.

Console input is passed in as parameters: typed codes, prices, statuses, menu choices and the
Y/N answer. The file contents are passed in as text, with `None` for a missing file. The
current date is a parameter. Each operation that saves a file returns the text it writes.

Where the code and its prose description differ, the model follows the code:

- A catalog line with too many fields, or with a price `float` rejects, is not skipped.
  It raises inside the loader's `try`, which ends the load and keeps the records read so far
  (`Records.LoadStopsAtRaise`).
- Saving and loading gives back every record only when fields carry no commas. A name with
  a comma produces a line that ends the next load (`Records.CommaInFieldRaises`).
- The "Deliver Today" question is asked only after the operator has picked an action. It is
  not asked for "Go back", nor for a status without actions. It is asked whatever the new
  status is, unless it is Ready, so a just-Closed or just-Cancelled order can become
  "Deliver Today" (`OrderStatus.ClosedOrderOverridden`).
- "Deliver Today" is not in the action table, so an order in that status offers no further
  actions (`OrderStatus.TerminalStatuses`).

## Model

| member | source | states |
|---|---|---|
| Text.Strip | BeautifulBlooms/main.py:145 | the result neither starts nor ends with whitespace |
| Text.StripSlice | BeautifulBlooms/main.py:145 | the result is a slice of the input, and everything removed before and after that slice is whitespace |
| Text.StripIdempotent | BeautifulBlooms/main.py:304-307 | stripping an already stripped entry changes nothing, so `float` sees the same text |
| Text.Upper | BeautifulBlooms/main.py:289 | `upper()` keeps the length and maps each character on its own: a lower-case ASCII letter becomes its capital, anything else is kept |
| Text.UpperKeeps | BeautifulBlooms/main.py:289 | a text without lower-case letters is unchanged by `upper()` |
| Text.Split | BeautifulBlooms/main.py:147 | `split(",")` gives at least one part, and no part contains the separator |
| Text.SplitJoin | BeautifulBlooms/main.py:147 | splitting fields joined by a separator they do not contain gives the fields back |
| Text.JoinSplit | BeautifulBlooms/main.py:147 | joining the parts of a split with the separator gives the text back |
| Text.FileLines | BeautifulBlooms/main.py:144 | the lines read from a file hold no line break |
| Text.FileLinesWriteLines | BeautifulBlooms/main.py:144 | lines written with a trailing `"\n"` each are read back as the same lines |
| Numerals.PadZeros | BeautifulBlooms/main.py:270 | `f"{n:0wd}"` is all digits, of length `w` or the number's own length if longer |
| Numerals.PadZerosValue | BeautifulBlooms/main.py:270 | the padded text reads back as the number |
| Numerals.PadZerosInjective | BeautifulBlooms/main.py:270 | different numbers give different padded texts |
| Numerals.ParsePrice | BeautifulBlooms/main.py:307 | `float` of a blank entry fails |
| Numerals.FormatPriceShape | BeautifulBlooms/main.py:167 | `str(price)` starts with a minus exactly when the price is negative. The rest is digits, a point and one or two digits; the whole part has no leading zero and the fraction no trailing zero, except a lone "0" |
| Numerals.FormatUnsignedRoundTrip | BeautifulBlooms/main.py:167 | the unsigned text of a price reads back as that number of cents |
| Numerals.ParseTwoDecimals | BeautifulBlooms/main.py:307 | `float` reads a whole number, a point and two digits as that many cents |
| Numerals.ParseWhole | BeautifulBlooms/main.py:307 | `float` reads a whole number typed without a point, such as "50", as that many units |
| Numerals.MinusSign | BeautifulBlooms/main.py:307 | a leading minus negates what the rest reads as, and fails where the rest fails |
| Numerals.PlusSign | BeautifulBlooms/main.py:307 | a leading plus is ignored |
| Numerals.FormatPriceRoundTrip | BeautifulBlooms/main.py:167 | `float(str(price))` gives the price back, for every price, negative ones included |
| Dates.DaysInMonth | BeautifulBlooms/main.py:79 | every month has 28 to 31 days |
| Dates.ParseDate | BeautifulBlooms/main.py:79 | `strptime("%d/%m/%Y")` only yields valid Gregorian dates, and fails on the empty text |
| Dates.FormatDateRoundTrip | BeautifulBlooms/main.py:79 | every valid date written as DD/MM/YYYY parses back to itself |
| Dates.Weekday | BeautifulBlooms/main.py:80 | `weekday()` lies in 0..6 |
| Dates.NextDay | BeautifulBlooms/main.py:80 | the day after a valid date is valid |
| Dates.NextDayOrdinal | BeautifulBlooms/main.py:80 | the next day's day count is one more |
| Dates.NextDayWeekday | BeautifulBlooms/main.py:80 | the next day's weekday is the following weekday, Sunday wrapping to Monday |
| Dates.FirstDayMonday | BeautifulBlooms/main.py:80 | 1 January of year 1 is a Monday (0), as Python's proleptic calendar has it |
| Dates.SaturdayParses | BeautifulBlooms/main.py:79 | "18/10/2025" parses to 18 October 2025 |
| Dates.SaturdayIsWeekend | BeautifulBlooms/main.py:80 | 18 October 2025 is a Saturday (5) |
| Pricing.DeliveryCharge | BeautifulBlooms/main.py:76-83 | the delivery charge is 35 or 45. It is 45 exactly when the date parses to a Saturday or Sunday; an unparseable or empty date gives 35 |
| Pricing.PickupTotal | BeautifulBlooms/main.py:70-89 | a pickup costs the product plus the add-on if any, whatever the date and same-day flag |
| Pricing.DeliveryTotal | BeautifulBlooms/main.py:70-89 | a delivery adds 35, 10 more on a weekend date and 35 more when same-day |
| Pricing.SummaryAddsUp | BeautifulBlooms/main.py:105-118 | the items plus the delivery charge shown in the summary, plus the same-day fee, equal `calculate_total` |
| Pricing.WeekdayExamples | BeautifulBlooms/main.py:70-89 | a 50-dollar delivery on Friday 17/10/2025 costs 85, or 120 same-day |
| Pricing.SaturdayExample | BeautifulBlooms/main.py:70-89 | a 50-dollar same-day delivery on Saturday 18/10/2025 costs 130 |
| Pricing.FridayParses | BeautifulBlooms/main.py:79 | "17/10/2025" parses to 17 October 2025 |
| Pricing.FridayIsWeekday | BeautifulBlooms/main.py:80 | 17 October 2025 is a Friday (4) |
| OrderStatus.ActionTargets | BeautifulBlooms/main.py:798-812 | each menu text maps to its target status, first match in the order Cancel, Preparing, Ready, Closed, Open |
| OrderStatus.StepFollowsTable | BeautifulBlooms/main.py:769-812 | every offered action moves along the lifecycle Open→Cancelled/Preparing, Cancelled→Open, Preparing→Ready, Ready→Preparing/Closed |
| OrderStatus.EveryMoveOffered | BeautifulBlooms/main.py:769-812 | every move of that lifecycle is offered by some menu entry |
| OrderStatus.TerminalStatuses | BeautifulBlooms/main.py:774-782 | a status offers no actions exactly when it has no lifecycle move, which is exactly Closed and Deliver Today |
| OrderStatus.DeliverTodayOverride | BeautifulBlooms/main.py:815-824 | after an action, the order becomes Deliver Today if and only if it is a delivery, its date parses to today, the new status is not Ready and the operator confirms; otherwise it keeps the action's status |
| OrderStatus.ClosedOrderOverridden | BeautifulBlooms/main.py:807-824 | a Ready delivery due today that is closed and confirmed ends as Deliver Today |
| Codes.CodeForInjective | BeautifulBlooms/main.py:270 | different counters give different codes for one prefix |
| Codes.CodesBelowSize | BeautifulBlooms/main.py:268-273 | there are exactly `c - 1` codes below counter `c`, which bounds the loop by the number of existing codes |
| Codes.GenerateUniqueCode | BeautifulBlooms/main.py:267-273 | the code is the prefix with the counter padded to 3 digits; it is not taken, and every smaller counter from 1 is taken |
| Codes.FirstCode | BeautifulBlooms/main.py:268-270 | the first code tried is the prefix followed by "001" |
| Records.InsertKeepsWellFormed | BeautifulBlooms/main.py:150-153 | storing a record under its own code keeps every key listed once and every record under its own code |
| Records.LoadFromAppend | BeautifulBlooms/main.py:144-158 | when no earlier line raises, one more line is loaded on top of what the earlier lines gave, unless it raises, in which case it adds nothing |
| Records.LastLineWins | BeautifulBlooms/main.py:150 | a later line with the same code overwrites the earlier record |
| Records.LoadStopsAtRaise | BeautifulBlooms/main.py:148-158 | a line that raises ends the load with the records read before it |
| Records.LoadSaved | BeautifulBlooms/main.py:140-167 | loading the lines saved from a well-formed table gives the same table, given that each line reads back as its record |
| Records.ProductLineRoundTrip | BeautifulBlooms/main.py:145-150 | a product line written by `save_products` reads back as the same record when fields hold no comma or line break and the line has no edge whitespace |
| Records.ProductFieldsPersistable | BeautifulBlooms/main.py:167 | the written price never breaks the comma-separated format |
| Records.ProductsRoundTrip | BeautifulBlooms/main.py:140-171 | `load_products` of the text `save_products` writes gives back every product's code, name, category, price and status, in order |
| Records.CommaInFieldRaises | BeautifulBlooms/main.py:147-149 | a comma in a saved name or category yields a line that raises when loaded |
| Records.ProductLineTrimmed | BeautifulBlooms/main.py:145 | a saved line is non-empty and unchanged by the loader's `strip()` |
| Records.AddonFieldsPersistable | BeautifulBlooms/main.py:207 | the written add-on price never breaks the format |
| Records.AddonLineRoundTrip | BeautifulBlooms/main.py:179-184 | an add-on line written by `save_addons` reads back as the same record |
| Records.AddonsRoundTrip | BeautifulBlooms/main.py:174-211 | `load_addons` of the text `save_addons` writes gives back every add-on, in order |
| Records.DefaultAddonsShape | BeautifulBlooms/main.py:191-195 | the defaults are ADD001, ADD002, ADD003 in that order, each under its own code |
| Records.DefaultAddonsReload | BeautifulBlooms/main.py:189-196 | the default add-ons written on a missing file load back as the same add-ons |
| Catalog.Dict.Put | BeautifulBlooms/main.py:150 | assignment maps the key to the value; an existing key keeps its place and a new one is appended |
| Catalog.Dict.Values | BeautifulBlooms/main.py:166 | `values()` lists one value per key, in key order, and every stored value appears |
| Catalog.Product.constructor | BeautifulBlooms/main.py:6-14 | a new product has the given fields and no ratings (rating 0, count 0) |
| Catalog.Product.UpdatePrice | BeautifulBlooms/main.py:20-21 | only the price changes |
| Catalog.Product.UpdateStatus | BeautifulBlooms/main.py:23-24 | only the status changes, to any string given |
| Catalog.Product.AddRating | BeautifulBlooms/main.py:26-29 | the count grows by one and the rating becomes the average of all ratings given, the new one included |
| Catalog.Addon.constructor | BeautifulBlooms/main.py:34-38 | a new add-on has the given fields |
| Catalog.Addon.UpdatePrice | BeautifulBlooms/main.py:43-44 | only the price changes |
| Catalog.Addon.UpdateStatus | BeautifulBlooms/main.py:46-47 | only the status changes |
| Catalog.MeanBounds | BeautifulBlooms/main.py:707-710 | an average of ratings between two bounds lies between them |
| Catalog.RateProduct | BeautifulBlooms/main.py:706-710 | a rating outside 1..5 changes nothing; an accepted one is averaged in; the product's record is unchanged; a rated product's average stays within 1..5 |
| Catalog.ProductTableWellFormed | BeautifulBlooms/main.py:150 | a dictionary whose products sit under their own codes has a well-formed table |
| Catalog.AddonTableWellFormed | BeautifulBlooms/main.py:184 | a dictionary whose add-ons sit under their own codes has a well-formed table |
| Inventory.PutProduct | BeautifulBlooms/main.py:150-153 | storing a new product object inserts its record into the table view. The new object sits under its code and every other entry keeps its object. An unrated catalog stays unrated, and the new product has no ratings, a count of 0 and an average of 0 |
| Inventory.PutAddon | BeautifulBlooms/main.py:184-187 | storing a new add-on object inserts its record into the table view. The new object sits under its code and every other entry keeps its object |
| Inventory.LoadProducts | BeautifulBlooms/main.py:140-160 | the loop builds exactly the table the line fold gives. Every product is a new object with no ratings, a count of 0 and an average of 0, so it is valid and can be rated |
| Inventory.CreateDefaultAddons | BeautifulBlooms/main.py:191-195 | the three default add-ons, in order |
| Inventory.LoadAddons | BeautifulBlooms/main.py:174-200 | the loop builds exactly the table the line fold gives; a missing file gives the defaults and writes them |
| Inventory.UpdatedPrice | BeautifulBlooms/main.py:304-314 | an empty entry keeps the price; the price changes only to an entered value that parses and is positive, and always does so then |
| Inventory.UpdatedStatus | BeautifulBlooms/main.py:317-323 | the status changes exactly when the entry is Available or Unavailable, and then to that entry |
| Inventory.UpdateProducts | BeautifulBlooms/main.py:289-323 | the keys stay; only the selected product can change, and only in price and status |
| Inventory.UpdateProductsUnselected | BeautifulBlooms/main.py:289-301 | "0" or an unknown code changes nothing |
| Inventory.UpdateProductsWellFormed | BeautifulBlooms/main.py:299-323 | an update keeps every product under its own code |
| Inventory.UpdateAddons | BeautifulBlooms/main.py:414-448 | as for products, on the add-ons |
| Inventory.UpdateAddonsUnselected | BeautifulBlooms/main.py:414-426 | "0" or an unknown code changes nothing |
| Inventory.UpdateAddonsWellFormed | BeautifulBlooms/main.py:424-448 | an update keeps every add-on under its own code |
| Inventory.EnterProductPrice | BeautifulBlooms/main.py:304-314 | the object's price becomes the updated price and nothing else changes |
| Inventory.EnterProductStatus | BeautifulBlooms/main.py:317-323 | the object's status becomes the updated status and nothing else changes |
| Inventory.EnterAddonPrice | BeautifulBlooms/main.py:429-439 | the add-on's price becomes the updated price and nothing else changes |
| Inventory.EnterAddonStatus | BeautifulBlooms/main.py:442-448 | the add-on's status becomes the updated status and nothing else changes |
| Inventory.UpdateBloom | BeautifulBlooms/main.py:289-328 | mutating the product objects changes the table exactly as the update rules say, and the file is written exactly when the code is found. No other product object changes, and the updated one keeps its ratings |
| Inventory.UpdateAddon | BeautifulBlooms/main.py:414-453 | the same for the add-on objects |
| Inventory.CheckNewItem | BeautifulBlooms/main.py:336-364 | the checks in order: empty name, taken manual code, unreadable price, non-positive price. An item is admitted exactly when all pass, with the stripped name and the parsed price |
| Inventory.CapitalCodeEntered | BeautifulBlooms/main.py:349 | a code of capitals and digits is found as typed after `strip().upper()` |
| Inventory.GeneratedCodeEntered | BeautifulBlooms/main.py:378-386 | every generated code reads as itself after `strip().upper()` |
| Inventory.AddBloom | BeautifulBlooms/main.py:333-397 | a rejected entry changes nothing and writes nothing. An admitted one adds an Available product under a code not taken before, and the file is written. The code is the typed one, or the category prefix with the least free counter. The added product is a new object with no ratings. Every entry that was already there keeps its object, and a rejected entry leaves every object in place |
| Inventory.AddAddon | BeautifulBlooms/main.py:458-500 | as for blooms, with the prefix ADD and no category. The added add-on is a new object, and the other entries keep their objects |
| Display.Listing | BeautifulBlooms/main.py:530 | the listing holds each product in dictionary order |
| Display.ListingOf | BeautifulBlooms/main.py:530 | the listing of a key sequence holds, at each position, the entry of that key |
| Display.AvailableOnlyCount | BeautifulBlooms/main.py:530 | the first comprehension keeps exactly the Available products, each as often as listed |
| Display.InCategoryCount | BeautifulBlooms/main.py:533 | the second keeps exactly the products of the category |
| Display.VisibleCount | BeautifulBlooms/main.py:530-533 | the filter keeps exactly the Available entries of the category, or all categories when no or an empty filter is given |
| Display.InsertSortedCount | BeautifulBlooms/main.py:535-538 | inserting adds exactly the one entry |
| Display.InsertSortedSorted | BeautifulBlooms/main.py:535-538 | inserting into a sorted list keeps it sorted |
| Display.SortByProps | BeautifulBlooms/main.py:535-538 | the sort orders by the key and is a permutation |
| Display.InsertSortedStable | BeautifulBlooms/main.py:535-538 | inserting keeps the relative order of entries with equal keys |
| Display.SortByStable | BeautifulBlooms/main.py:535-538 | the sort is stable: entries with equal keys keep their order, as Python's sort does, also with `reverse=True` |
| Display.DisplayProductsSpec | BeautifulBlooms/main.py:529-549 | the products shown are exactly the visible ones. They are by ascending price or by descending rating, each stable, or else in dictionary order |
| Orders.OrderIdInjective | BeautifulBlooms/main.py:56 | different counter values give different order identifiers |
| Orders.OrderCounter.constructor | BeautifulBlooms/main.py:51 | the counter starts at 1 with no identifiers issued |
| Orders.OrderCounter.Take | BeautifulBlooms/main.py:56-57 | the identifier is `BBO-25-` with the counter padded to 4 digits; the counter goes up by one; the identifier was never issued before |
| Orders.Order.constructor | BeautifulBlooms/main.py:53-67 | a new order takes the next identifier, stores its fields and starts Open |
| Orders.Order.Total | BeautifulBlooms/main.py:70-89 | on the current product and add-on prices: the items for a pickup; for a delivery the items plus 35, plus 10 on a weekend date, plus 35 same-day |
| Orders.Order.UpdateStatus | BeautifulBlooms/main.py:136-137 | the status becomes the one given |
| Orders.Order.Edit | BeautifulBlooms/main.py:777-824 | the order's status after the screen is the one the status rules give for the choice, the date, today and the typed answer |

## Left out

- Console input and output are left out: prompts, messages, `clear_screen`, `print_header`, `print_menu`, the menu loops and `main`. Typed entries are parameters.
- `get_valid_input` is not modelled. Menu and category choices are taken as already valid, and the `None` it returns on an interrupt is not modelled.
- File handles and encodings are left out, as are the I/O failures other than a missing file. These include a read error caught by `except Exception` and a failing write, which makes `save_products`/`save_addons` return False. The model passes the file contents in as text and returns the text written.
- `save_orders`, `created_date`, `datetime.now()`, `__str__`, `get_summary`'s text and `view_orders`' listing by status are left out. The summary's delivery charge is covered by `Pricing.SummaryAddsUp`.
- The flow of `create_order` is left out: product and add-on selection, the confirm/edit/cancel menu, its recursive re-entry, and storing the order in the orders dictionary. Its rating step is `Catalog.RateProduct`.
- Numerals.ParsePrice: reads decimal texts with at most two fraction digits, in ASCII digits, as exact cents. Python's `float` also accepts exponents, `inf`, `nan`, underscores, longer fractions and non-ASCII Unicode decimal digits, and keeps binary floating point. Prices are whole cents here, so float rounding is not modelled.
- Numerals.FormatPrice: mirrors `str(float)` only for whole-cent prices a double holds exactly to the cent. From about 2^46 dollars (some 7·10^13) on, neighbouring doubles are more than a cent apart, and Python prints the nearest double's shortest form: `str(float("1000000000000000.01"))` is "1000000000000000.0". At 10^16 dollars Python switches to exponent notation. Neither is modelled. Prices are whole cents, so there is no negative zero: a price read as "-0" or "-0.00" becomes 0 and is saved as "0.0", where Python keeps `-0.0` and saves "-0.0".
- Numerals.FormatPriceShape: its minus sign appears exactly for negative prices. Python's `str(-0.0)` is "-0.0", a minus on a price that is not negative; the model has no negative zero (see the Numerals.FormatPrice line).
- Dates.ParseDate: accepts ASCII digits only, whereas `strptime` also accepts other Unicode decimal digits.
- Text.Upper: upper-cases ASCII letters only; Python's `upper()` also maps non-ASCII letters.
- Orders.Order.UpdateStatus: takes one of the six statuses, while the source accepts any string. Only these six are ever passed.
- Catalog.Product.AddRating: keeps the average as an exact real, the mean of all ratings given. Python computes `(rating * count + new) / (count + 1)` in binary floating point, so its average can differ from the exact mean in the last bits. The descending-rating sort can then order two products differently when their exact means are equal or nearly so. The ratings list is a ghost field that stands for that exact mean.
- Catalog.RateProduct: takes the rating as a number, and averages exactly as `AddRating` does. Reading the typed text with `float`, and the `except` that swallows a bad entry, are not modelled.
- Ratings and rating counts live only in memory; the files do not store them. `Inventory.LoadProducts` states that every loaded product is unrated. Saving after a rating is not modelled.
- Orders.Order.Total: is stated on integer cents, not floats, so sums are exact.
