/**
 * The booking ledger behind `/book`, `/cancel`, `/slots` and `/bookings`
 * (app.py): the seeded halls and the `bookings` table, kept in insertion
 * order, with `book` checking its inputs in the order the endpoint does.
 */
module Ledger {
  import opened Wrappers
  import opened Text
  import TimeGrid
  import Dates
  import Pricing
  import Availability
  import Ics

  datatype Status = Confirmed | Canceled

  /** A row of the `bookings` table; the add-ons carry their price at booking time. */
  datatype Booking = Booking(id: string, hallId: string, date: string, startMin: nat, endMin: nat,
                             name: Option<string>, phone: string, addons: seq<Pricing.Addon>,
                             price: int, status: Status, createdAt: string)

  /** Why `book` or `cancel` refuses a request. */
  datatype Error =
    | MissingField        // a required field is absent or empty (400)
    | BadSlot             // the slot text does not parse as `HH:MM` (the endpoint raises)
    | SlotNotAvailable    // a confirmed booking is within the buffer (409)
    | UnknownHall         // no hall with that id (400)
    | BadDate             // `datetime` rejects the date while pricing (the endpoint raises)
    | DuplicateBookingId  // the INSERT hits the PRIMARY KEY of an existing row (the endpoint raises)

  /** The fields `book` reads from its payload; absent keys are `None`. */
  datatype BookRequest = BookRequest(hallId: Option<string>, date: Option<string>, slot: Option<string>,
                                     name: Option<string>, phone: Option<string>, addons: seq<string>)

  /** What a successful `book` returns, with the calendar text it writes. */
  datatype Receipt = Receipt(bookingId: string, price: int, icsUrl: string, ics: string)

  /** One entry of the `bookings` listing. */
  datatype BookingView = BookingView(bookingId: string, hallId: string, date: string, slot: string, price: int)

  /** The halls the table is seeded with. */
  const SeedHalls: seq<Pricing.Hall> := [Pricing.HallA, Pricing.HallB, Pricing.HallC]

  /** The add-on price list. */
  const AddonPrices: map<string, nat> := map["Набор свет A" := 3000, "Фон белый" := 1500, "Стойки" := 1000]

  /** Python truthiness of an optional text field: present and not empty. */
  predicate Present(x: Option<string>)
  {
    x.Some? && x.value != []
  }

  /** The listed price of an add-on; names not on the list cost nothing. */
  function AddonPrice(name: string): nat
  {
    if name in AddonPrices then AddonPrices[name] else 0
  }

  function ResolveAddons(names: seq<string>): (r: seq<Pricing.Addon>)
    ensures |r| == |names|
    ensures forall i :: 0 <= i < |r| ==> r[i].name == names[i]
    ensures forall i :: 0 <= i < |r| && names[i] in AddonPrices ==> r[i].price == AddonPrices[names[i]]
    ensures forall i :: 0 <= i < |r| && names[i] !in AddonPrices ==> r[i].price == 0
  {
    seq(|names|, i requires 0 <= i < |names| => Pricing.Addon(names[i], AddonPrice(names[i])))
  }

  /** `SELECT * FROM halls WHERE id=?`: the first hall with that id, if any. */
  function FindHall(halls: seq<Pricing.Hall>, id: string): (r: Option<Pricing.Hall>)
    ensures r.Some? ==> r.value in halls && r.value.id == id
    ensures r.None? <==> forall k :: 0 <= k < |halls| ==> halls[k].id != id
  {
    if halls == [] then None
    else if halls[0].id == id then Some(halls[0])
    else FindHall(halls[1..], id)
  }

  /** `BK-<date>-<hall>-<HH>00`, the hour of the start zero-padded to two digits. */
  function BookingId(date: string, hallId: string, startMin: nat): string
  {
    "BK-" + date + "-" + hallId + "-" + Pad2(startMin / 60) + "00"
  }

  /** A confirmed booking of the hall on the date: one that counts as busy. */
  predicate IsLive(b: Booking, hallId: string, date: string)
  {
    b.status == Confirmed && b.hallId == hallId && b.date == date
  }

  /** The busy intervals of a hall under a date text, in table order. */
  function BusyFor(rows: seq<Booking>, hallId: string, date: string): (r: seq<Availability.Interval>)
    ensures |r| <= |rows|
  {
    if rows == [] then []
    else (if IsLive(rows[0], hallId, date) then [Availability.Interval(rows[0].startMin, rows[0].endMin)] else [])
         + BusyFor(rows[1..], hallId, date)
  }

  predicate IdTaken(rows: seq<Booking>, id: string)
  {
    exists i :: 0 <= i < |rows| && rows[i].id == id
  }

  /**
   * The outcome of `book` on a table: the new row, or the first check that
   * fails, in the endpoint's order.
   */
  function BookDecision(rows: seq<Booking>, halls: seq<Pricing.Hall>, req: BookRequest, createdAt: string)
    : (r: Result<Booking, Error>)
    ensures r.Success? ==> Dates.ParseDate(r.value.date).Some?
  {
    if !(Present(req.hallId) && Present(req.date) && Present(req.slot) && Present(req.phone)) then Failure(MissingField)
    else match TimeGrid.ParseSlot(req.slot.value)
      case None => Failure(BadSlot)
      case Some(startMin) => Placement(rows, halls, req, startMin, createdAt)
  }

  /** The part of `book` inside the store transaction, once the start is known. */
  function Placement(rows: seq<Booking>, halls: seq<Pricing.Hall>, req: BookRequest, startMin: nat, createdAt: string)
    : (r: Result<Booking, Error>)
    requires Present(req.hallId) && Present(req.date) && Present(req.phone)
    ensures r.Success? ==> Dates.ParseDate(r.value.date).Some?
  {
    var hallId, date := req.hallId.value, req.date.value;
    if Availability.Blocked(startMin, BusyFor(rows, hallId, date)) then Failure(SlotNotAvailable)
    else match FindHall(halls, hallId)
      case None => Failure(UnknownHall)
      case Some(hall) =>
        match Dates.IsWeekend(date)
        case None => Failure(BadDate)
        case Some(weekend) =>
          if IdTaken(rows, BookingId(date, hallId, startMin)) then Failure(DuplicateBookingId)
          else Success(NewRow(req, startMin, hall, weekend, createdAt))
  }

  /** The confirmed row `book` inserts once every check has passed. */
  function NewRow(req: BookRequest, startMin: nat, hall: Pricing.Hall, weekend: bool, createdAt: string): Booking
    requires Present(req.hallId) && Present(req.date) && Present(req.phone)
  {
    var addons := ResolveAddons(req.addons);
    Booking(BookingId(req.date.value, req.hallId.value, startMin), req.hallId.value, req.date.value,
            startMin, startMin + Availability.SlotDur, req.name, req.phone.value, addons,
            Pricing.Price(hall, weekend, startMin, addons), Confirmed, createdAt)
  }

  /** The calendar text written for a booking whose date `datetime` accepts. */
  function IcsFor(b: Booking, dtstamp: string): string
    requires Dates.ParseDate(b.date).Some?
  {
    Ics.Content(b.id, b.hallId, Dates.ParseDate(b.date).value, b.startMin, b.endMin, b.name, Some(b.phone), dtstamp)
  }

  function ReceiptFor(b: Booking, baseUrl: string, dtstamp: string): Receipt
    requires Dates.ParseDate(b.date).Some?
  {
    Receipt(b.id, b.price, baseUrl + Ics.RelativePath(b.id), IcsFor(b, dtstamp))
  }

  /** `UPDATE bookings SET status='canceled' WHERE booking_id=?`. */
  function CancelRows(rows: seq<Booking>, id: string): (r: seq<Booking>)
    ensures |r| == |rows|
  {
    seq(|rows|, i requires 0 <= i < |rows| => if rows[i].id == id then rows[i].(status := Canceled) else rows[i])
  }

  /** Two bookings are separated: if both are confirmed for the same hall and date text, one ends a buffer before the other starts. */
  predicate Separated(a: Booking, b: Booking)
  {
    IsLive(a, b.hallId, b.date) && b.status == Confirmed ==>
      a.endMin + Availability.Buffer <= b.startMin || b.endMin + Availability.Buffer <= a.startMin
  }

  /** What every table the ledger builds satisfies. */
  predicate TableInvariant(rows: seq<Booking>)
  {
    && (forall i, j :: 0 <= i < j < |rows| ==> rows[i].id != rows[j].id)
    && (forall i :: 0 <= i < |rows| ==> rows[i].endMin == rows[i].startMin + Availability.SlotDur)
    && (forall i, j :: 0 <= i < |rows| && 0 <= j < |rows| && i != j ==> Separated(rows[i], rows[j]))
  }

  /** `WHERE phone=? AND status='confirmed'`, in table order. */
  function Matching(rows: seq<Booking>, phone: string): (r: seq<Booking>)
    ensures |r| <= |rows|
  {
    if rows == [] then []
    else (if rows[0].phone == phone && rows[0].status == Confirmed then [rows[0]] else []) + Matching(rows[1..], phone)
  }

  /** `ORDER BY date, start_min`: the date text by SQLite's binary collation, then the start. */
  predicate RowLe(a: Booking, b: Booking)
  {
    StrLt(a.date, b.date) || (a.date == b.date && a.startMin <= b.startMin)
  }

  predicate Sorted(s: seq<Booking>)
  {
    forall i :: 0 <= i < |s| - 1 ==> RowLe(s[i], s[i + 1])
  }

  function Insert(x: Booking, s: seq<Booking>): (r: seq<Booking>)
    ensures |r| == |s| + 1
    ensures r[0] == x || (s != [] && r[0] == s[0])
    ensures multiset(r) == multiset(s) + multiset{x}
  {
    if s == [] then [x]
    else if RowLe(x, s[0]) then [x] + s
    else
      assert s == [s[0]] + s[1..];
      [s[0]] + Insert(x, s[1..])
  }

  function SortRows(s: seq<Booking>): (r: seq<Booking>)
    ensures |r| == |s|
  {
    if s == [] then [] else Insert(s[0], SortRows(s[1..]))
  }

  function View(b: Booking): BookingView
  {
    BookingView(b.id, b.hallId, b.date, TimeGrid.MinToRange(b.startMin, Availability.SlotDur), b.price)
  }

  /** What `bookings` returns for a phone. */
  function Listing(rows: seq<Booking>, phone: string): (r: seq<BookingView>)
  {
    var s := SortRows(Matching(rows, phone));
    seq(|s|, i requires 0 <= i < |s| => View(s[i]))
  }

  /** The `bookings` table with the seeded halls. */
  class Ledger {
    const halls: seq<Pricing.Hall>
    var rows: seq<Booking>

    predicate Valid()
      reads this
    {
      TableInvariant(rows)
    }

    constructor()
      ensures halls == SeedHalls && rows == []
      ensures Valid()
    {
      halls := SeedHalls;
      rows := [];
    }

    /** `book`: check the request, insert the confirmed row and render its calendar text. */
    method Book(req: BookRequest, createdAt: string, dtstamp: string, baseUrl: string) returns (r: Result<Receipt, Error>)
      requires Valid()
      modifies this
      ensures Valid()
      ensures BookDecision(old(rows), halls, req, createdAt).Failure? ==>
                r == Failure(BookDecision(old(rows), halls, req, createdAt).error) && rows == old(rows)
      ensures BookDecision(old(rows), halls, req, createdAt).Success? ==>
                && rows == old(rows) + [BookDecision(old(rows), halls, req, createdAt).value]
                && r == Success(ReceiptFor(BookDecision(old(rows), halls, req, createdAt).value, baseUrl, dtstamp))
    {
      if !(Present(req.hallId) && Present(req.date) && Present(req.slot) && Present(req.phone)) {
        return Failure(MissingField);
      }
      var parsed := TimeGrid.ParseSlot(req.slot.value);
      if parsed.None? {
        return Failure(BadSlot);
      }
      r := Place(req, parsed.value, createdAt, dtstamp, baseUrl);
    }

    /** The transaction of `book`: conflict check, hall lookup, pricing, insert. */
    method Place(req: BookRequest, startMin: nat, createdAt: string, dtstamp: string, baseUrl: string)
      returns (r: Result<Receipt, Error>)
      requires Valid()
      requires Present(req.hallId) && Present(req.date) && Present(req.phone)
      modifies this
      ensures Valid()
      ensures Placement(old(rows), halls, req, startMin, createdAt).Failure? ==>
                r == Failure(Placement(old(rows), halls, req, startMin, createdAt).error) && rows == old(rows)
      ensures Placement(old(rows), halls, req, startMin, createdAt).Success? ==>
                && rows == old(rows) + [Placement(old(rows), halls, req, startMin, createdAt).value]
                && r == Success(ReceiptFor(Placement(old(rows), halls, req, startMin, createdAt).value, baseUrl, dtstamp))
    {
      var hallId, date, phone := req.hallId.value, req.date.value, req.phone.value;
      var endMin := startMin + Availability.SlotDur;
      var conflict := Availability.AnyConflict(startMin, BusyFor(rows, hallId, date));
      if conflict {
        return Failure(SlotNotAvailable);
      }
      var hall := FindHall(halls, hallId);
      if hall.None? {
        return Failure(UnknownHall);
      }
      var addons := ResolveAddons(req.addons);
      var price := Pricing.CalcPrice(hall.value, date, startMin, addons);
      if price.None? {
        return Failure(BadDate);
      }
      var id := BookingId(date, hallId, startMin);
      if IdTaken(rows, id) {
        return Failure(DuplicateBookingId);
      }
      var b := Booking(id, hallId, date, startMin, endMin, req.name, phone, addons, price.value, Confirmed, createdAt);
      AppendKeepsInvariant(rows, b);
      rows := rows + [b];
      var ics := Ics.Content(id, hallId, Dates.ParseDate(date).value, startMin, endMin, req.name, Some(phone), dtstamp);
      r := Success(Receipt(id, price.value, baseUrl + Ics.RelativePath(id), ics));
    }

    /** `cancel`: a missing or empty id is refused; any other id succeeds, whether or not a row has it. */
    method Cancel(id: Option<string>) returns (r: Result<(), Error>)
      requires Valid()
      modifies this
      ensures Valid()
      ensures !Present(id) ==> r == Failure(MissingField) && rows == old(rows)
      ensures Present(id) ==> r == Success(()) && rows == CancelRows(old(rows), id.value)
    {
      if !Present(id) {
        return Failure(MissingField);
      }
      CancelKeepsInvariant(rows, id.value);
      rows := CancelRows(rows, id.value);
      r := Success(());
    }

    /** `slots`: the free grid ranges of a hall on a date. */
    method ListSlots(hallId: Option<string>, date: Option<string>) returns (r: Result<seq<string>, Error>)
      ensures !(Present(hallId) && Present(date)) <==> r == Failure(MissingField)
      ensures Present(hallId) && Present(date) ==>
                r == Success(Availability.Ranges(Availability.FreeStarts(BusyFor(rows, hallId.value, date.value))))
    {
      if !(Present(hallId) && Present(date)) {
        return Failure(MissingField);
      }
      var out := Availability.Slots(BusyFor(rows, hallId.value, date.value));
      r := Success(out);
    }

    /** `bookings`: the confirmed bookings of a phone, by date and then start. */
    method Bookings(phone: string) returns (views: seq<BookingView>)
      ensures views == Listing(rows, phone)
      ensures |views| == |Matching(rows, phone)|
      ensures forall b :: b in rows && b.phone == phone && b.status == Confirmed ==> View(b) in views
      ensures forall k :: 0 <= k < |views| ==>
                exists b :: b in rows && b.phone == phone && b.status == Confirmed && views[k] == View(b)
      ensures forall i, j :: 0 <= i < j < |views| ==> StrLt(views[i].date, views[j].date) || views[i].date == views[j].date
    {
      views := Listing(rows, phone);
      forall b | b in rows && b.phone == phone && b.status == Confirmed
        ensures View(b) in views
      {
        ListingComplete(rows, phone, b);
      }
      forall k | 0 <= k < |views|
        ensures exists b :: b in rows && b.phone == phone && b.status == Confirmed && views[k] == View(b)
      {
        ListingSound(rows, phone, k);
      }
      ListingOrdered(rows, phone);
    }
  }

  // ---------------------------------------------------------------- book

  /** A hall's busy list holds exactly the intervals of its confirmed rows on that date. */
  lemma {:induction false} BusyForExact(rows: seq<Booking>, hallId: string, date: string, iv: Availability.Interval)
    ensures iv in BusyFor(rows, hallId, date) <==>
              exists i :: 0 <= i < |rows| && IsLive(rows[i], hallId, date)
                                          && iv == Availability.Interval(rows[i].startMin, rows[i].endMin)
  {
    if rows != [] {
      BusyForExact(rows[1..], hallId, date, iv);
      if exists i :: 0 <= i < |rows| && IsLive(rows[i], hallId, date)
                                     && iv == Availability.Interval(rows[i].startMin, rows[i].endMin) {
        var i :| 0 <= i < |rows| && IsLive(rows[i], hallId, date)
                                 && iv == Availability.Interval(rows[i].startMin, rows[i].endMin);
        if i > 0 {
          assert rows[1..][i - 1] == rows[i];
        }
      }
      if iv in BusyFor(rows[1..], hallId, date) {
        var i :| 0 <= i < |rows[1..]| && IsLive(rows[1..][i], hallId, date)
                                      && iv == Availability.Interval(rows[1..][i].startMin, rows[1..][i].endMin);
        assert rows[i + 1] == rows[1..][i];
      }
    }
  }

  /** The conflict query finds a row exactly when a confirmed booking of the hall on the date is within the buffer. */
  lemma BlockedByRow(rows: seq<Booking>, hallId: string, date: string, start: int)
    ensures Availability.Blocked(start, BusyFor(rows, hallId, date)) <==>
              exists i :: 0 <= i < |rows| && IsLive(rows[i], hallId, date)
                && Availability.Hits(start, start + Availability.SlotDur, rows[i].startMin, rows[i].endMin)
  {
    var busy := BusyFor(rows, hallId, date);
    if Availability.Blocked(start, busy) {
      var k :| 0 <= k < |busy| && Availability.Hits(start, start + Availability.SlotDur, busy[k].s, busy[k].e);
      BusyForExact(rows, hallId, date, busy[k]);
    }
    if exists i :: 0 <= i < |rows| && IsLive(rows[i], hallId, date)
                   && Availability.Hits(start, start + Availability.SlotDur, rows[i].startMin, rows[i].endMin) {
      var i :| 0 <= i < |rows| && IsLive(rows[i], hallId, date)
               && Availability.Hits(start, start + Availability.SlotDur, rows[i].startMin, rows[i].endMin);
      var iv := Availability.Interval(rows[i].startMin, rows[i].endMin);
      BusyForExact(rows, hallId, date, iv);
      var k :| 0 <= k < |busy| && busy[k] == iv;
    }
  }

  /** Once the fields are present and the slot text parses, the transaction decides `book`. */
  lemma DecisionAfterParse(rows: seq<Booking>, halls: seq<Pricing.Hall>, req: BookRequest, createdAt: string, startMin: nat)
    requires Present(req.hallId) && Present(req.date) && Present(req.slot) && Present(req.phone)
    requires TimeGrid.ParseSlot(req.slot.value) == Some(startMin)
    ensures BookDecision(rows, halls, req, createdAt) == Placement(rows, halls, req, startMin, createdAt)
  {
  }

  /**
   * The checks inside the transaction, in order: a conflict with a confirmed
   * booking first, then the hall lookup, then the date (while pricing), then
   * the id already in the table.
   */
  lemma PlacementChecks(rows: seq<Booking>, halls: seq<Pricing.Hall>, req: BookRequest, startMin: nat, createdAt: string)
    requires Present(req.hallId) && Present(req.date) && Present(req.phone)
    ensures var r := Placement(rows, halls, req, startMin, createdAt);
      var blocked := Availability.Blocked(startMin, BusyFor(rows, req.hallId.value, req.date.value));
      var hall := FindHall(halls, req.hallId.value);
      && (r == Failure(SlotNotAvailable) <==> blocked)
      && (r == Failure(UnknownHall) <==> !blocked && hall.None?)
      && (r == Failure(BadDate) <==> !blocked && hall.Some? && Dates.ParseDate(req.date.value).None?)
      && (r == Failure(DuplicateBookingId) <==>
            !blocked && hall.Some? && Dates.ParseDate(req.date.value).Some?
            && IdTaken(rows, BookingId(req.date.value, req.hallId.value, startMin)))
      && (r.Success? ==>
            !blocked && hall.Some? && Dates.IsWeekend(req.date.value).Some?
            && !IdTaken(rows, BookingId(req.date.value, req.hallId.value, startMin))
            && r.value == NewRow(req, startMin, hall.value, Dates.IsWeekend(req.date.value).value, createdAt))
  {
  }

  /**
   * The checks of `book` in order: missing fields first, then the slot text,
   * then a conflict with a confirmed booking of the hall on the date (before
   * the hall is looked up), then the hall.
   */
  lemma BookErrorOrder(rows: seq<Booking>, halls: seq<Pricing.Hall>, req: BookRequest, createdAt: string)
    ensures !(Present(req.hallId) && Present(req.date) && Present(req.slot) && Present(req.phone)) <==>
              BookDecision(rows, halls, req, createdAt) == Failure(MissingField)
    ensures Present(req.hallId) && Present(req.date) && Present(req.slot) && Present(req.phone) ==>
              (BookDecision(rows, halls, req, createdAt) == Failure(BadSlot) <==> TimeGrid.ParseSlot(req.slot.value).None?)
    ensures Present(req.hallId) && Present(req.date) && Present(req.slot) && Present(req.phone)
            && TimeGrid.ParseSlot(req.slot.value).Some? ==>
              (BookDecision(rows, halls, req, createdAt) == Failure(SlotNotAvailable) <==>
                 exists i :: 0 <= i < |rows| && IsLive(rows[i], req.hallId.value, req.date.value)
                   && Availability.Hits(TimeGrid.ParseSlot(req.slot.value).value,
                                        TimeGrid.ParseSlot(req.slot.value).value + Availability.SlotDur,
                                        rows[i].startMin, rows[i].endMin))
    ensures BookDecision(rows, halls, req, createdAt) == Failure(UnknownHall) ==>
              forall k :: 0 <= k < |halls| ==> halls[k].id != req.hallId.value
  {
    if Present(req.hallId) && Present(req.date) && Present(req.slot) && Present(req.phone) {
      var parsed := TimeGrid.ParseSlot(req.slot.value);
      if parsed.Some? {
        DecisionAfterParse(rows, halls, req, createdAt, parsed.value);
        PlacementChecks(rows, halls, req, parsed.value, createdAt);
        BlockedByRow(rows, req.hallId.value, req.date.value, parsed.value);
      }
    }
  }

  /** A request for an unknown hall at a taken time is refused as a conflict, not as an unknown hall. */
  lemma ConflictBeforeHall(rows: seq<Booking>, halls: seq<Pricing.Hall>, req: BookRequest, createdAt: string, i: nat)
    requires Present(req.hallId) && Present(req.date) && Present(req.slot) && Present(req.phone)
    requires TimeGrid.ParseSlot(req.slot.value).Some?
    requires i < |rows| && IsLive(rows[i], req.hallId.value, req.date.value)
    requires Availability.Hits(TimeGrid.ParseSlot(req.slot.value).value,
                               TimeGrid.ParseSlot(req.slot.value).value + Availability.SlotDur,
                               rows[i].startMin, rows[i].endMin)
    ensures BookDecision(rows, halls, req, createdAt) == Failure(SlotNotAvailable)
  {
    BookErrorOrder(rows, halls, req, createdAt);
  }

  /** A successful `book` passed every check and inserts the row built from the request. */
  lemma BookAccepted(rows: seq<Booking>, halls: seq<Pricing.Hall>, req: BookRequest, createdAt: string)
    requires BookDecision(rows, halls, req, createdAt).Success?
    ensures Present(req.hallId) && Present(req.date) && Present(req.slot) && Present(req.phone)
    ensures TimeGrid.ParseSlot(req.slot.value).Some?
    ensures var startMin := TimeGrid.ParseSlot(req.slot.value).value;
      && !Availability.Blocked(startMin, BusyFor(rows, req.hallId.value, req.date.value))
      && FindHall(halls, req.hallId.value).Some? && Dates.IsWeekend(req.date.value).Some?
      && !IdTaken(rows, BookingId(req.date.value, req.hallId.value, startMin))
      && BookDecision(rows, halls, req, createdAt).value
           == NewRow(req, startMin, FindHall(halls, req.hallId.value).value, Dates.IsWeekend(req.date.value).value, createdAt)
  {
    var startMin := TimeGrid.ParseSlot(req.slot.value).value;
    DecisionAfterParse(rows, halls, req, createdAt, startMin);
    PlacementChecks(rows, halls, req, startMin, createdAt);
  }

  /**
   * A successful `book` builds the row from the request: the parsed start, an
   * hour-long interval, the deterministic id (not yet in the table), add-ons
   * at list price, the price of the hall found, confirmed status.
   */
  lemma BookSuccessRow(rows: seq<Booking>, halls: seq<Pricing.Hall>, req: BookRequest, createdAt: string)
    requires BookDecision(rows, halls, req, createdAt).Success?
    ensures var b := BookDecision(rows, halls, req, createdAt).value;
      && Present(req.hallId) && Present(req.date) && Present(req.slot) && Present(req.phone)
      && b.hallId == req.hallId.value && b.date == req.date.value && b.phone == req.phone.value && b.name == req.name
      && TimeGrid.ParseSlot(req.slot.value) == Some(b.startMin)
      && b.endMin == b.startMin + 60
      && b.id == BookingId(b.date, b.hallId, b.startMin) && !IdTaken(rows, b.id)
      && |b.addons| == |req.addons|
      && (forall k :: 0 <= k < |b.addons| ==>
            b.addons[k].name == req.addons[k]
            && b.addons[k].price == (if req.addons[k] in AddonPrices then AddonPrices[req.addons[k]] else 0))
      && FindHall(halls, b.hallId).Some?
      && b.price == Pricing.Price(FindHall(halls, b.hallId).value, Dates.IsWeekend(b.date).value, b.startMin, b.addons)
      && b.status == Confirmed
      && b.createdAt == createdAt
  {
    BookAccepted(rows, halls, req, createdAt);
  }

  /** A booking appended to the table keeps the invariant when its id is new and no confirmed booking is within its buffer. */
  lemma AppendKeepsInvariant(rows: seq<Booking>, b: Booking)
    requires TableInvariant(rows)
    requires !IdTaken(rows, b.id) && b.endMin == b.startMin + Availability.SlotDur
    requires !Availability.Blocked(b.startMin, BusyFor(rows, b.hallId, b.date))
    ensures TableInvariant(rows + [b])
  {
    var t := rows + [b];
    BlockedByRow(rows, b.hallId, b.date, b.startMin);
    forall i, j | 0 <= i < |t| && 0 <= j < |t| && i != j
      ensures Separated(t[i], t[j])
    {
      if j == |rows| {
        assert t[i] == rows[i];
        assert !Availability.Hits(b.startMin, b.endMin, t[i].startMin, t[i].endMin) || !IsLive(t[i], b.hallId, b.date);
      } else if i == |rows| {
        assert t[j] == rows[j];
        assert !Availability.Hits(b.startMin, b.endMin, t[j].startMin, t[j].endMin) || !IsLive(t[j], b.hallId, b.date);
      } else {
        assert t[i] == rows[i] && t[j] == rows[j];
      }
    }
    forall i, j | 0 <= i < j < |t|
      ensures t[i].id != t[j].id
    {
      if j == |rows| {
        assert t[i] == rows[i];
      }
    }
  }

  /** The row a successful `book` appends has a new id, lasts one slot and is clear of every confirmed booking. */
  lemma BookRowFits(rows: seq<Booking>, halls: seq<Pricing.Hall>, req: BookRequest, createdAt: string)
    requires BookDecision(rows, halls, req, createdAt).Success?
    ensures var b := BookDecision(rows, halls, req, createdAt).value;
      && !IdTaken(rows, b.id) && b.endMin == b.startMin + Availability.SlotDur && b.status == Confirmed
      && !Availability.Blocked(b.startMin, BusyFor(rows, b.hallId, b.date))
  {
    BookAccepted(rows, halls, req, createdAt);
  }

  /** A successful `book` keeps the table invariant. */
  lemma BookKeepsInvariant(rows: seq<Booking>, halls: seq<Pricing.Hall>, req: BookRequest, createdAt: string)
    requires TableInvariant(rows)
    requires BookDecision(rows, halls, req, createdAt).Success?
    ensures TableInvariant(rows + [BookDecision(rows, halls, req, createdAt).value])
  {
    BookRowFits(rows, halls, req, createdAt);
    AppendKeepsInvariant(rows, BookDecision(rows, halls, req, createdAt).value);
  }

  // ---------------------------------------------------------------- cancel

  /** `cancel` touches only the status, and only of the rows with that id. */
  lemma CancelOnlyStatus(rows: seq<Booking>, id: string)
    ensures |CancelRows(rows, id)| == |rows|
    ensures forall i :: 0 <= i < |rows| ==>
              CancelRows(rows, id)[i].(status := rows[i].status) == rows[i]
              && (CancelRows(rows, id)[i].status == Canceled <==> rows[i].id == id || rows[i].status == Canceled)
  {
  }

  /** Canceling an id no row has changes nothing. */
  lemma CancelUnknownNoop(rows: seq<Booking>, id: string)
    requires !IdTaken(rows, id)
    ensures CancelRows(rows, id) == rows
  {
    var r := CancelRows(rows, id);
    forall i | 0 <= i < |rows|
      ensures r[i] == rows[i]
    {
      assert rows[i].id != id;
    }
  }

  /** Canceling keeps the table invariant. */
  lemma CancelKeepsInvariant(rows: seq<Booking>, id: string)
    requires TableInvariant(rows)
    ensures TableInvariant(CancelRows(rows, id))
  {
    var r := CancelRows(rows, id);
    forall i, j | 0 <= i < |r| && 0 <= j < |r| && i != j
      ensures Separated(r[i], r[j])
    {
      assert Separated(rows[i], rows[j]);
    }
  }

  /** After a cancel, the canceled booking no longer makes its slot busy. */
  lemma CancelFreesInterval(rows: seq<Booking>, id: string, hallId: string, date: string, start: int)
    requires TableInvariant(rows)
    requires forall i :: 0 <= i < |rows| && IsLive(rows[i], hallId, date) ==> rows[i].id == id
    ensures !Availability.Blocked(start, BusyFor(CancelRows(rows, id), hallId, date))
  {
    BlockedByRow(CancelRows(rows, id), hallId, date, start);
  }

  // ---------------------------------------------------------------- sequences of operations

  /** A request to the ledger. */
  datatype Op = BookOp(req: BookRequest, createdAt: string) | CancelOp(id: Option<string>)

  /** The table after one request; a refused request leaves it as it was. */
  function Apply(rows: seq<Booking>, halls: seq<Pricing.Hall>, op: Op): seq<Booking>
  {
    match op
    case BookOp(req, createdAt) =>
      (match BookDecision(rows, halls, req, createdAt)
       case Success(b) => rows + [b]
       case Failure(_) => rows)
    case CancelOp(id) => if Present(id) then CancelRows(rows, id.value) else rows
  }

  function Run(rows: seq<Booking>, halls: seq<Pricing.Hall>, ops: seq<Op>): seq<Booking>
    decreases |ops|
  {
    if ops == [] then rows else Run(Apply(rows, halls, ops[0]), halls, ops[1..])
  }

  /**
   * The central invariant: whatever `book` and `cancel` requests arrive, any
   * two confirmed bookings of a hall under the same date text are a buffer
   * apart (two texts of one calendar day are not compared, see
   * `SameDayBookedTwice`), ids stay
   * unique and every booking lasts one slot.
   */
  lemma {:induction false} RunKeepsInvariant(rows: seq<Booking>, halls: seq<Pricing.Hall>, ops: seq<Op>)
    requires TableInvariant(rows)
    ensures TableInvariant(Run(rows, halls, ops))
    decreases |ops|
  {
    if ops != [] {
      ApplyKeepsInvariant(rows, halls, ops[0]);
      RunKeepsInvariant(Apply(rows, halls, ops[0]), halls, ops[1..]);
    }
  }

  lemma ApplyKeepsInvariant(rows: seq<Booking>, halls: seq<Pricing.Hall>, op: Op)
    requires TableInvariant(rows)
    ensures TableInvariant(Apply(rows, halls, op))
  {
    if op.BookOp? {
      if BookDecision(rows, halls, op.req, op.createdAt).Success? {
        BookKeepsInvariant(rows, halls, op.req, op.createdAt);
      }
    } else if Present(op.id) {
      CancelKeepsInvariant(rows, op.id.value);
    }
  }

  // ---------------------------------------------------------------- slots after book

  /**
   * For a grid slot, `slots` lists its range exactly when `book` on that
   * range text would not be refused as a conflict.
   */
  lemma ListedIffBookable(rows: seq<Booking>, halls: seq<Pricing.Hall>, req: BookRequest, createdAt: string, m: nat)
    requires Present(req.hallId) && Present(req.date) && Present(req.phone)
    requires Availability.OnGrid(m) && req.slot == Some(TimeGrid.MinToRange(m, Availability.SlotDur))
    ensures TimeGrid.MinToRange(m, Availability.SlotDur)
              in Availability.Ranges(Availability.FreeStarts(BusyFor(rows, req.hallId.value, req.date.value)))
            <==> BookDecision(rows, halls, req, createdAt) != Failure(SlotNotAvailable)
  {
    TimeGrid.ParseSlotRoundTrip(m, Availability.SlotDur);
    DecisionAfterParse(rows, halls, req, createdAt, m);
    PlacementChecks(rows, halls, req, m, createdAt);
    Availability.SlotListedExactly(BusyFor(rows, req.hallId.value, req.date.value), m);
  }

  /** A slot within the buffer of a confirmed booking is not listed for its hall and date. */
  lemma SlotHiddenBy(t: seq<Booking>, k: nat, m: nat)
    requires k < |t| && t[k].status == Confirmed
    requires Availability.Hits(m, m + Availability.SlotDur, t[k].startMin, t[k].endMin)
    ensures TimeGrid.MinToRange(m, Availability.SlotDur)
              !in Availability.Ranges(Availability.FreeStarts(BusyFor(t, t[k].hallId, t[k].date)))
  {
    BlockedByRow(t, t[k].hallId, t[k].date, m);
    Availability.SlotListedExactly(BusyFor(t, t[k].hallId, t[k].date), m);
  }

  /** A confirmed booking hides from `slots` every slot within its buffer. */
  lemma LiveRowHidesNeighbours(t: seq<Booking>, k: nat)
    requires k < |t| && t[k].status == Confirmed && t[k].endMin == t[k].startMin + Availability.SlotDur
    ensures forall m: nat :: Availability.Hits(m, m + Availability.SlotDur, t[k].startMin, t[k].endMin) ==>
              TimeGrid.MinToRange(m, Availability.SlotDur)
                !in Availability.Ranges(Availability.FreeStarts(BusyFor(t, t[k].hallId, t[k].date)))
  {
    forall m: nat | Availability.Hits(m, m + Availability.SlotDur, t[k].startMin, t[k].endMin)
      ensures TimeGrid.MinToRange(m, Availability.SlotDur)
                !in Availability.Ranges(Availability.FreeStarts(BusyFor(t, t[k].hallId, t[k].date)))
    {
      SlotHiddenBy(t, k, m);
    }
  }

  /**
   * Once a slot is booked, `slots` no longer lists any slot within its
   * buffer: not the booked range, nor the grid slots just before and after it.
   */
  lemma BookedSlotHidden(rows: seq<Booking>, halls: seq<Pricing.Hall>, req: BookRequest, createdAt: string, m: nat)
    requires BookDecision(rows, halls, req, createdAt).Success?
    requires var b := BookDecision(rows, halls, req, createdAt).value;
      m + Availability.SlotDur == b.startMin || m == b.startMin || m == b.startMin + Availability.SlotDur
    ensures var b := BookDecision(rows, halls, req, createdAt).value;
      TimeGrid.MinToRange(m, Availability.SlotDur)
        !in Availability.Ranges(Availability.FreeStarts(BusyFor(rows + [b], b.hallId, b.date)))
  {
    BookRowFits(rows, halls, req, createdAt);
    var b := BookDecision(rows, halls, req, createdAt).value;
    assert (rows + [b])[|rows|] == b;
    LiveRowHidesNeighbours(rows + [b], |rows|);
  }

  // ---------------------------------------------------------------- bookings

  /** The phone filter keeps exactly the confirmed rows with that phone. */
  lemma {:induction false} MatchingExact(rows: seq<Booking>, phone: string, b: Booking)
    ensures b in Matching(rows, phone) <==> b in rows && b.phone == phone && b.status == Confirmed
  {
    if rows != [] {
      MatchingExact(rows[1..], phone, b);
      assert rows == [rows[0]] + rows[1..];
    }
  }

  lemma RowLeTotal(a: Booking, b: Booking)
    ensures RowLe(a, b) || RowLe(b, a)
  {
    StrLeTotal(a.date, b.date);
  }

  lemma RowLeTransitive(a: Booking, b: Booking, c: Booking)
    requires RowLe(a, b) && RowLe(b, c)
    ensures RowLe(a, c)
  {
    if StrLt(a.date, b.date) && StrLt(b.date, c.date) {
      StrLeTransitive(a.date, b.date, c.date);
      if a.date == c.date {
        StrLeAntisymmetric(a.date, b.date);
      }
    }
  }

  lemma {:induction false} InsertSorted(x: Booking, s: seq<Booking>)
    requires Sorted(s)
    ensures Sorted(Insert(x, s))
    decreases |s|
  {
    if s != [] && !RowLe(x, s[0]) {
      InsertSorted(x, s[1..]);
      RowLeTotal(x, s[0]);
    }
  }

  /** The sort orders its input by date and start, and neither drops nor adds a row. */
  lemma {:induction false} SortRowsCorrect(s: seq<Booking>)
    ensures Sorted(SortRows(s))
    ensures multiset(SortRows(s)) == multiset(s)
    decreases |s|
  {
    if s != [] {
      SortRowsCorrect(s[1..]);
      InsertSorted(s[0], SortRows(s[1..]));
      assert s == [s[0]] + s[1..];
    }
  }

  /** Neighbour order extends to every pair. */
  lemma {:induction false} SortedPairs(s: seq<Booking>, i: nat, j: nat)
    requires Sorted(s) && i < j < |s|
    ensures RowLe(s[i], s[j])
    decreases j - i
  {
    if i + 1 < j {
      SortedPairs(s, i + 1, j);
      RowLeTransitive(s[i], s[i + 1], s[j]);
    }
  }

  /** `bookings(phone)` lists every confirmed booking with that phone. */
  lemma ListingComplete(rows: seq<Booking>, phone: string, b: Booking)
    requires b in rows && b.phone == phone && b.status == Confirmed
    ensures View(b) in Listing(rows, phone)
  {
    var s := SortRows(Matching(rows, phone));
    SortRowsCorrect(Matching(rows, phone));
    MatchingExact(rows, phone, b);
    assert b in multiset(s);
    var k :| 0 <= k < |s| && s[k] == b;
    assert Listing(rows, phone)[k] == View(b);
  }

  /** Every entry of `bookings(phone)` is the view of a confirmed booking with that phone. */
  lemma ListingSound(rows: seq<Booking>, phone: string, k: nat)
    requires k < |Listing(rows, phone)|
    ensures exists b :: b in rows && b.phone == phone && b.status == Confirmed && Listing(rows, phone)[k] == View(b)
  {
    var s := SortRows(Matching(rows, phone));
    SortRowsCorrect(Matching(rows, phone));
    assert s[k] in multiset(Matching(rows, phone));
    MatchingExact(rows, phone, s[k]);
    assert Listing(rows, phone)[k] == View(s[k]);
  }

  /** `bookings(phone)` lists by date text, as many entries as there are matching bookings. */
  lemma ListingOrdered(rows: seq<Booking>, phone: string)
    ensures |Listing(rows, phone)| == |Matching(rows, phone)|
    ensures forall i, j :: 0 <= i < j < |Listing(rows, phone)| ==>
              StrLt(Listing(rows, phone)[i].date, Listing(rows, phone)[j].date)
              || Listing(rows, phone)[i].date == Listing(rows, phone)[j].date
  {
    var s := SortRows(Matching(rows, phone));
    var l := Listing(rows, phone);
    SortRowsCorrect(Matching(rows, phone));
    forall i, j | 0 <= i < j < |l|
      ensures StrLt(l[i].date, l[j].date) || l[i].date == l[j].date
    {
      SortedPairs(s, i, j);
      assert l[i] == View(s[i]) && l[j] == View(s[j]);
    }
  }

  /** Within one date, `bookings` lists earlier starts first. */
  lemma ListingStartOrder(rows: seq<Booking>, phone: string, i: nat, j: nat)
    requires i < j < |SortRows(Matching(rows, phone))|
    requires SortRows(Matching(rows, phone))[i].date == SortRows(Matching(rows, phone))[j].date
    ensures SortRows(Matching(rows, phone))[i].startMin <= SortRows(Matching(rows, phone))[j].startMin
  {
    SortRowsCorrect(Matching(rows, phone));
    SortedPairs(SortRows(Matching(rows, phone)), i, j);
  }

  /** For ISO dates with four-digit years, `bookings` lists an earlier day before a later one. */
  lemma ListingChronological(rows: seq<Booking>, phone: string, i: nat, j: nat, d1: Dates.Date, d2: Dates.Date)
    requires i < j < |Listing(rows, phone)|
    requires Dates.ValidDate(d1) && Dates.ValidDate(d2) && d1.year >= 1000 && d2.year >= 1000
    requires Listing(rows, phone)[i].date == Dates.IsoText(d1) && Listing(rows, phone)[j].date == Dates.IsoText(d2)
    ensures !Dates.Precedes(d2, d1)
  {
    ListingOrdered(rows, phone);
    Dates.IsoTextOrder(d2, d1);
    if StrLt(Dates.IsoText(d2), Dates.IsoText(d1)) {
      StrLeAntisymmetric(Dates.IsoText(d1), Dates.IsoText(d2));
    }
  }

  // ---------------------------------------------------------------- cancel, then book again

  /**
   * After a booking is canceled, `slots` lists its grid slot again unless
   * another booking is near, yet booking that slot again is refused: the id
   * is derived from date, hall and hour, and the canceled row still holds it.
   */
  lemma RebookAfterCancelRefused(rows: seq<Booking>, halls: seq<Pricing.Hall>, req: BookRequest,
                                 createdAt: string, createdAt2: string)
    requires BookDecision(rows, halls, req, createdAt).Success?
    ensures var b := BookDecision(rows, halls, req, createdAt).value;
      var after := CancelRows(rows + [b], b.id);
      && (Availability.OnGrid(b.startMin) ==>
            TimeGrid.MinToRange(b.startMin, Availability.SlotDur)
              in Availability.Ranges(Availability.FreeStarts(BusyFor(after, b.hallId, b.date))))
      && BookDecision(after, halls, req, createdAt2) == Failure(DuplicateBookingId)
  {
    BookRowFits(rows, halls, req, createdAt);
    var b := BookDecision(rows, halls, req, createdAt).value;
    var after := CancelRows(rows + [b], b.id);
    CancelAppendedFrees(rows, b);
    Availability.SlotListedExactly(BusyFor(after, b.hallId, b.date), b.startMin);
    RebookedRequest(rows, halls, req, createdAt, after, createdAt2);
  }

  /**
   * Canceling a row just appended with a fresh id and an unblocked start
   * leaves that start unblocked, while the canceled row keeps the id.
   */
  lemma CancelAppendedFrees(rows: seq<Booking>, b: Booking)
    requires !IdTaken(rows, b.id)
    requires !Availability.Blocked(b.startMin, BusyFor(rows, b.hallId, b.date))
    ensures !Availability.Blocked(b.startMin, BusyFor(CancelRows(rows + [b], b.id), b.hallId, b.date))
    ensures IdTaken(CancelRows(rows + [b], b.id), b.id)
  {
    var after := CancelRows(rows + [b], b.id);
    BlockedByRow(rows, b.hallId, b.date, b.startMin);
    BlockedByRow(after, b.hallId, b.date, b.startMin);
    forall i | 0 <= i < |after| && IsLive(after[i], b.hallId, b.date)
      ensures !Availability.Hits(b.startMin, b.startMin + Availability.SlotDur, after[i].startMin, after[i].endMin)
    {
      assert i < |rows| && after[i] == rows[i];
    }
    assert after[|rows|].id == b.id;
  }

  /** `book` repeated on another table picks the same start, hall and id as before. */
  lemma RebookedRequest(rows: seq<Booking>, halls: seq<Pricing.Hall>, req: BookRequest, createdAt: string,
                        after: seq<Booking>, createdAt2: string)
    requires BookDecision(rows, halls, req, createdAt).Success?
    requires var b := BookDecision(rows, halls, req, createdAt).value;
      !Availability.Blocked(b.startMin, BusyFor(after, b.hallId, b.date)) && IdTaken(after, b.id)
    ensures BookDecision(after, halls, req, createdAt2) == Failure(DuplicateBookingId)
  {
    BookAccepted(rows, halls, req, createdAt);
    var startMin := TimeGrid.ParseSlot(req.slot.value).value;
    DecisionAfterParse(after, halls, req, createdAt2, startMin);
    PlacementChecks(after, halls, req, startMin, createdAt2);
  }

  // ---------------------------------------------------------------- examples

  /** The id of a 15:00 booking of hall A on 2024-06-01. */
  lemma BookingIdExample()
    ensures BookingId("2024-06-01", "A", 15 * 60) == "BK-2024-06-01-A-1500"
  {
  }

  /**
   * On the freshly seeded ledger, booking hall A for 18:00–19:00 on Saturday
   * 2024-06-01 succeeds at 14300: the weekend and prime-time surcharges compound.
   */
  lemma FirstBookingExample(phone: string, createdAt: string)
    requires phone != []
    ensures var req := BookRequest(Some("A"), Some(Dates.IsoText(Dates.Date(2024, 6, 1))),
                                   Some(TimeGrid.MinToRange(18 * 60, Availability.SlotDur)), None, Some(phone), []);
      && BookDecision([], SeedHalls, req, createdAt).Success?
      && BookDecision([], SeedHalls, req, createdAt).value.price == 14300
      && BookDecision([], SeedHalls, req, createdAt).value.id
           == BookingId(Dates.IsoText(Dates.Date(2024, 6, 1)), "A", 18 * 60)
  {
    var date := Dates.IsoText(Dates.Date(2024, 6, 1));
    var req := BookRequest(Some("A"), Some(date), Some(TimeGrid.MinToRange(18 * 60, Availability.SlotDur)),
                           None, Some(phone), []);
    TimeGrid.ParseSlotRoundTrip(18 * 60, Availability.SlotDur);
    Dates.IsWeekendIsoText(Dates.Date(2024, 6, 1));
    Dates.ExampleDateIsSaturday();
    Pricing.SeedHallPrimeTimePrices();
    assert FindHall(SeedHalls, "A") == Some(Pricing.HallA);
    assert Pricing.Price(Pricing.HallA, true, 18 * 60, []) == 14300;
    AcceptedOnEmptyTable(SeedHalls, req, createdAt, 18 * 60, Pricing.HallA, true);
  }

  /** On an empty table, a well-formed request for a known hall and a valid date is accepted. */
  lemma AcceptedOnEmptyTable(halls: seq<Pricing.Hall>, req: BookRequest, createdAt: string,
                             startMin: nat, hall: Pricing.Hall, weekend: bool)
    requires Present(req.hallId) && Present(req.date) && Present(req.slot) && Present(req.phone)
    requires TimeGrid.ParseSlot(req.slot.value) == Some(startMin)
    requires FindHall(halls, req.hallId.value) == Some(hall)
    requires Dates.IsWeekend(req.date.value) == Some(weekend)
    ensures BookDecision([], halls, req, createdAt).Success?
    ensures BookDecision([], halls, req, createdAt).value.price == Pricing.Price(hall, weekend, startMin, ResolveAddons(req.addons))
    ensures BookDecision([], halls, req, createdAt).value.id == BookingId(req.date.value, req.hallId.value, startMin)
  {
    DecisionAfterParse([], halls, req, createdAt, startMin);
    PlacementChecks([], halls, req, startMin, createdAt);
    assert BusyFor([], req.hallId.value, req.date.value) == [];
  }

  /** Rows of other date texts neither block nor clash with a well-formed request, which is then accepted. */
  lemma AcceptedBesideOtherDates(rows: seq<Booking>, halls: seq<Pricing.Hall>, req: BookRequest, createdAt: string,
                                 startMin: nat, hall: Pricing.Hall, weekend: bool)
    requires Present(req.hallId) && Present(req.date) && Present(req.slot) && Present(req.phone)
    requires TimeGrid.ParseSlot(req.slot.value) == Some(startMin)
    requires FindHall(halls, req.hallId.value) == Some(hall)
    requires Dates.IsWeekend(req.date.value) == Some(weekend)
    requires forall i :: 0 <= i < |rows| ==> rows[i].date != req.date.value
    requires !IdTaken(rows, BookingId(req.date.value, req.hallId.value, startMin))
    ensures BookDecision(rows, halls, req, createdAt).Success?
    ensures BookDecision(rows, halls, req, createdAt).value
              == NewRow(req, startMin, hall, weekend, createdAt)
  {
    DecisionAfterParse(rows, halls, req, createdAt, startMin);
    PlacementChecks(rows, halls, req, startMin, createdAt);
    BlockedByRow(rows, req.hallId.value, req.date.value, startMin);
  }

  /** A request for hall `hallId`, slot `m` and date text `date`, with no name and no add-ons. */
  function SlotRequest(hallId: string, date: string, m: nat, phone: string): BookRequest
  {
    BookRequest(Some(hallId), Some(date), Some(TimeGrid.MinToRange(m, Availability.SlotDur)), None, Some(phone), [])
  }

  /**
   * The conflict check compares date TEXT, as the SQL does, while `datetime`
   * reads `2024-6-1` and `2024-06-01` as the same day. So the same hall and
   * hour of one calendar day can be booked twice: once under the padded
   * text, once under the unpadded one, both confirmed.
   */
  lemma SameDayBookedTwice(halls: seq<Pricing.Hall>, hallId: string, d: Dates.Date, m: nat, phone: string,
                           createdAt: string, createdAt2: string)
    requires Dates.ValidDate(d) && d.month < 10
    requires hallId != [] && phone != [] && FindHall(halls, hallId).Some?
    ensures var r1 := BookDecision([], halls, SlotRequest(hallId, Dates.IsoText(d), m, phone), createdAt);
      && r1.Success?
      && var r2 := BookDecision([r1.value], halls, SlotRequest(hallId, Dates.UnpaddedText(d), m, phone), createdAt2);
      && r2.Success?
      && Dates.ParseDate(r1.value.date) == Dates.ParseDate(r2.value.date) == Some(d)
      && r1.value.hallId == r2.value.hallId == hallId
      && r1.value.startMin == r2.value.startMin == m
      && r1.value.status == r2.value.status == Confirmed
  {
    var iso := Dates.IsoText(d);
    var req1 := SlotRequest(hallId, iso, m, phone);
    Dates.ParseDateIsoText(d);
    Dates.IsWeekendIsoText(d);
    TimeGrid.ParseSlotRoundTrip(m, Availability.SlotDur);
    AcceptedOnEmptyTable(halls, req1, createdAt, m, FindHall(halls, hallId).value, Dates.IsWeekend(iso).value);
    BookSuccessRow([], halls, req1, createdAt);
    var b := BookDecision([], halls, req1, createdAt).value;
    var plain := Dates.UnpaddedText(d);
    Dates.TwoTextsOneDay(d);
    IdsOfDifferentLength(plain, iso, hallId, m);
    AcceptedBesideOneRow(halls, hallId, plain, m, phone, b, createdAt2);
  }

  lemma IdsOfDifferentLength(date1: string, date2: string, hallId: string, m: nat)
    requires |date1| < |date2|
    ensures BookingId(date1, hallId, m) != BookingId(date2, hallId, m)
  {
    assert |BookingId(date1, hallId, m)| < |BookingId(date2, hallId, m)|;
  }

  /** A well-formed request whose date text and id differ from the one row's is accepted beside it. */
  lemma AcceptedBesideOneRow(halls: seq<Pricing.Hall>, hallId: string, date: string, m: nat, phone: string,
                             b: Booking, createdAt: string)
    requires hallId != [] && date != [] && phone != [] && FindHall(halls, hallId).Some?
    requires Dates.IsWeekend(date).Some?
    requires b.date != date && b.id != BookingId(date, hallId, m)
    ensures var r := BookDecision([b], halls, SlotRequest(hallId, date, m, phone), createdAt);
      && r.Success?
      && r.value.date == date && r.value.hallId == hallId && r.value.startMin == m && r.value.status == Confirmed
  {
    TimeGrid.ParseSlotRoundTrip(m, Availability.SlotDur);
    var req := SlotRequest(hallId, date, m, phone);
    assert !IdTaken([b], BookingId(date, hallId, m));
    AcceptedBesideOtherDates([b], halls, req, createdAt, m, FindHall(halls, hallId).value, Dates.IsWeekend(date).value);
  }

  /** Hall A on a weekend at 18:00 with two add-ons of the price list: they add 3000 and 1500 after both surcharges. */
  lemma SeedHallWithAddons()
    ensures Pricing.Price(Pricing.HallA, true, 18 * 60, ResolveAddons(["Набор свет A", "Фон белый"])) == 14300 + 4500
  {
    Pricing.SeedHallPrimeTimePrices();
    var s := ResolveAddons(["Набор свет A", "Фон белый"]);
    assert s[0].price == 3000 && s[1].price == 1500;
    assert s[..1][..0] == [];
    assert Pricing.SumPrices(s[..1]) == 3000;
    assert Pricing.SumPrices(s) == 4500;
  }
}
