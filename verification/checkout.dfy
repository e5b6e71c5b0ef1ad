/** The checkout form (`CheckoutPage`): five trimmed fields, one validator
    per field, and the booking that follows when the form is accepted.
    Dates are day numbers (day 0 is 1 January 1970) produced by a parser
    given as a parameter; "today" is a parameter too. */
module Checkout {
  import opened Wrappers
  import opened Text
  import opened FormRules

  datatype Form = Form(fullName: string, email: string, phone: string, pickup: string, returnDate: string)

  /** The message under each field ("" for none). */
  datatype Labels = Labels(fullName: string, email: string, phone: string, pickup: string, returnDate: string)

  /** The `yyyy-MM-dd` parser: the day a text denotes, or None when the
      text does not parse. */
  type DateParser = string -> Option<int>

  const FullNameRequired: string := "Full name is required."
  const EmailRequired: string := "Email is required."
  const EmailInvalid: string := "Invalid email format."
  const PhoneRequired: string := "Phone number is required."
  const PhoneInvalid: string := "Phone must be 11 digits."
  const PickupRequired: string := "Pickup date is required."
  const PickupInPast: string := "Pickup date cannot be in the past."
  const DateInvalid: string := "Invalid date format (YYYY-MM-DD)."
  const ReturnRequired: string := "Return date is required."
  const ReturnBeforePickup: string := "Return date before pickup date."

  /** Parsing the empty text always fails. */
  function ParseDate(parse: DateParser, s: string): (r: Option<int>)
    ensures s == "" ==> r.None?
    ensures s != "" ==> r == parse(s)
  {
    if s == "" then None else parse(s)
  }

  function Trimmed(f: Form): (t: Form)
    ensures t.fullName == Trim(f.fullName) && t.email == Trim(f.email) && t.phone == Trim(f.phone)
    ensures t.pickup == Trim(f.pickup) && t.returnDate == Trim(f.returnDate)
  {
    Form(Trim(f.fullName), Trim(f.email), Trim(f.phone), Trim(f.pickup), Trim(f.returnDate))
  }

  /** A validator's verdict and the message it leaves under its field. */
  datatype Verdict = Verdict(ok: bool, message: string)

  /** `validateFullName`. */
  function CheckFullName(fullName: string): (r: Verdict)
    ensures r.ok <==> fullName != ""
    ensures r.ok <==> r.message == ""
  {
    if fullName == "" then Verdict(false, FullNameRequired) else Verdict(true, "")
  }

  /** `validateEmail`: required, then the shared e-mail pattern. */
  function CheckEmail(email: string): (r: Verdict)
    ensures r.ok <==> EmailMatches(email)
    ensures r.ok <==> r.message == ""
    ensures r.message == EmailRequired <==> email == ""
  {
    if email == "" then Verdict(false, EmailRequired)
    else if !EmailMatches(email) then Verdict(false, EmailInvalid)
    else Verdict(true, "")
  }

  /** `validatePhone`: required, then exactly eleven digits. */
  function CheckPhone(phone: string): (r: Verdict)
    ensures r.ok <==> IsDigitsOfLength(phone, 11)
    ensures r.ok <==> r.message == ""
    ensures r.message == PhoneRequired <==> phone == ""
  {
    if phone == "" then Verdict(false, PhoneRequired)
    else if !IsDigitsOfLength(phone, 11) then Verdict(false, PhoneInvalid)
    else Verdict(true, "")
  }

  /** `validateReturnDate`: the verdict, and the return field's new message,
      or None when the method returns without touching it (a pickup date
      that is empty or not after 1 January 1970). */
  function CheckReturn(parse: DateParser, pickup: string, ret: string): (r: (bool, Option<string>))
    ensures r.0 <==>
      && ParseDate(parse, pickup).Some? && ParseDate(parse, pickup).value > 0
      && ParseDate(parse, ret).Some? && ParseDate(parse, pickup).value <= ParseDate(parse, ret).value
    ensures r.0 ==> r.1 == Some("")
    ensures r.1 == Some(ReturnRequired) <==> ret == ""
    ensures r.1 == Some(ReturnBeforePickup) <==>
      && ret != "" && ParseDate(parse, pickup).Some? && ParseDate(parse, pickup).value > 0
      && ParseDate(parse, ret).Some? && ParseDate(parse, ret).value < ParseDate(parse, pickup).value
  {
    if ret == "" then (false, Some(ReturnRequired))
    else if pickup == "" then (false, None)
    else match parse(pickup)
      case None => (false, Some(DateInvalid))
      case Some(p) =>
        if !(p > 0) then (false, None)
        else match parse(ret)
          case None => (false, Some(DateInvalid))
          case Some(q) =>
            if q < p then (false, Some(ReturnBeforePickup)) else (true, Some(""))
  }

  /** `validatePickupDate`: required, parsable, not before today; when it
      passes it also runs `validateReturnDate`, whose message it keeps and
      whose verdict it drops. The third component is the return field's
      new message, if any. */
  function CheckPickup(parse: DateParser, today: int, pickup: string, ret: string): (r: (Verdict, Option<string>))
    ensures r.0.ok <==> ParseDate(parse, pickup).Some? && ParseDate(parse, pickup).value >= today
    ensures r.0.ok <==> r.0.message == ""
    ensures r.0.message == PickupRequired <==> pickup == ""
    ensures !r.0.ok ==> r.1.None?
    ensures r.0.ok ==> r.1 == CheckReturn(parse, pickup, ret).1
  {
    if pickup == "" then (Verdict(false, PickupRequired), None)
    else match parse(pickup)
      case None => (Verdict(false, DateInvalid), None)
      case Some(p) =>
        if p < today then (Verdict(false, PickupInPast), None)
        else (Verdict(true, ""), CheckReturn(parse, pickup, ret).1)
  }

  /** The outcome of pressing Confirm: a form to correct, the "internal date
      parsing error", or the quoted booking (days and total cost) and whether
      the customer said yes to it. */
  datatype Outcome = Corrections | ParseFailure | Quote(days: int, total: real, booked: bool)

  datatype Result = Result(labels: Labels, outcome: Outcome)

  /** The four validators the confirm handler chains: all run, whatever the
      earlier ones said, and every label is reset first. */
  function Review(parse: DateParser, today: int, t: Form): (r: (bool, Labels))
    ensures r.0 <==>
      && t.fullName != "" && EmailMatches(t.email) && IsDigitsOfLength(t.phone, 11)
      && ParseDate(parse, t.pickup).Some? && ParseDate(parse, t.pickup).value >= today
    ensures r.0 ==> r.1.returnDate == CheckReturn(parse, t.pickup, t.returnDate).1.GetOr("")
  {
    var name := CheckFullName(t.fullName);
    var email := CheckEmail(t.email);
    var phone := CheckPhone(t.phone);
    var pick := CheckPickup(parse, today, t.pickup, t.returnDate);
    (name.ok && email.ok && phone.ok && pick.0.ok,
     Labels(name.message, email.message, phone.message, pick.0.message, pick.1.GetOr("")))
  }

  function Abs(n: int): nat {
    if n < 0 then -n else n
  }

  /** The rental length: the whole days between the two dates, plus one;
      the same day on both counts one day. */
  function RentalDays(pickup: int, ret: int): (r: int)
    ensures r >= 1
    ensures pickup <= ret ==> r == ret - pickup + 1
    ensures ret < pickup ==> r == pickup - ret + 1
  {
    var diff := Abs(ret - pickup);
    if diff == 0 && pickup == ret then 1 else diff + 1
  }

  /** The daily price times the rental days. */
  function TotalCost(price: real, days: int): real {
    price * (days as real)
  }

  /** The quote once both dates have parsed. */
  function QuoteFor(parse: DateParser, t: Form, price: real, confirmed: bool): (r: Outcome)
    ensures !r.Corrections?
    ensures r.ParseFailure? <==> ParseDate(parse, t.pickup).None? || ParseDate(parse, t.returnDate).None?
    ensures r.Quote? ==> r.booked == confirmed && r.total == TotalCost(price, r.days)
    ensures r.Quote? ==>
      r.days == RentalDays(ParseDate(parse, t.pickup).value, ParseDate(parse, t.returnDate).value)
  {
    match (ParseDate(parse, t.pickup), ParseDate(parse, t.returnDate))
      case (Some(p), Some(q)) => Quote(RentalDays(p, q), TotalCost(price, RentalDays(p, q)), confirmed)
      case _ => ParseFailure
  }

  /** Everything the confirm handler needs to go through, stated without the
      validators: a name, a valid e-mail and phone, a pickup date not before
      today, and a return date not before the pickup date. */
  predicate Bookable(parse: DateParser, today: int, f: Form) {
    var t := Trimmed(f);
    && t.fullName != "" && EmailMatches(t.email) && IsDigitsOfLength(t.phone, 11)
    && ParseDate(parse, t.pickup).Some? && ParseDate(parse, t.pickup).value >= today
    && ParseDate(parse, t.pickup).value > 0
    && ParseDate(parse, t.returnDate).Some?
    && ParseDate(parse, t.pickup).value <= ParseDate(parse, t.returnDate).value
  }

  /** `handleBookingConfirmation` as written: the verdict is the four chained
      validators, so the return date's own verdict is never consulted. */
  function ConfirmAsWritten(parse: DateParser, today: int, f: Form, price: real, confirmed: bool): (r: Result)
    ensures r.labels == Review(parse, today, Trimmed(f)).1
    ensures !r.outcome.Corrections? <==>
      && Trim(f.fullName) != "" && EmailMatches(Trim(f.email)) && IsDigitsOfLength(Trim(f.phone), 11)
      && ParseDate(parse, Trim(f.pickup)).Some? && ParseDate(parse, Trim(f.pickup)).value >= today
  {
    var t := Trimmed(f);
    var rv := Review(parse, today, t);
    if !rv.0 then Result(rv.1, Corrections) else Result(rv.1, QuoteFor(parse, t, price, confirmed))
  }

  /** `handleBookingConfirmation` with the return date's verdict counted. */
  function Confirm(parse: DateParser, today: int, f: Form, price: real, confirmed: bool): (r: Result)
    ensures r.labels == Review(parse, today, Trimmed(f)).1
    ensures r.outcome.Quote? <==> Bookable(parse, today, f)
    ensures !r.outcome.ParseFailure?
    ensures r.outcome.Quote? ==>
      today <= ParseDate(parse, Trim(f.pickup)).value <= ParseDate(parse, Trim(f.returnDate)).value
    ensures r.outcome.Quote? ==>
      r.outcome.days == ParseDate(parse, Trim(f.returnDate)).value - ParseDate(parse, Trim(f.pickup)).value + 1
    ensures r.outcome.Quote? ==> r.outcome.total == TotalCost(price, r.outcome.days) && r.outcome.booked == confirmed
  {
    var t := Trimmed(f);
    var rv := Review(parse, today, t);
    var ret := CheckReturn(parse, t.pickup, t.returnDate);
    if !(rv.0 && ret.0) then Result(rv.1, Corrections) else Result(rv.1, QuoteFor(parse, t, price, confirmed))
  }

  /** Every validator runs in the same press: each label shows its field's
      own problem, whatever the other fields hold. */
  lemma EveryCheckRuns(parse: DateParser, today: int, f: Form, price: real, confirmed: bool)
    ensures var l := ConfirmAsWritten(parse, today, f, price, confirmed).labels;
      && (l.fullName != "" <==> Trim(f.fullName) == "")
      && (l.email != "" <==> !EmailValid(f.email))
      && (l.phone != "" <==> !PhoneValid(f.phone))
      && (l.pickup != "" <==> !(ParseDate(parse, Trim(f.pickup)).Some? && ParseDate(parse, Trim(f.pickup)).value >= today))
  {
  }

  /** A pickup date before today refuses the form, with its message. */
  lemma PickupInPastRefused(parse: DateParser, today: int, f: Form, price: real, confirmed: bool)
    requires ParseDate(parse, Trim(f.pickup)).Some? && ParseDate(parse, Trim(f.pickup)).value < today
    ensures ConfirmAsWritten(parse, today, f, price, confirmed).outcome == Corrections
    ensures ConfirmAsWritten(parse, today, f, price, confirmed).labels.pickup == PickupInPast
    ensures Confirm(parse, today, f, price, confirmed).outcome == Corrections
  {
  }

  /** Whenever the fixed handler quotes, so does the written one, with the
      same days and cost: the two differ only on forms the return check
      refuses. */
  lemma ConfirmRefinesAsWritten(parse: DateParser, today: int, f: Form, price: real, confirmed: bool)
    ensures Confirm(parse, today, f, price, confirmed).outcome.Quote? ==>
      ConfirmAsWritten(parse, today, f, price, confirmed) == Confirm(parse, today, f, price, confirmed)
    ensures CheckReturn(parse, Trim(f.pickup), Trim(f.returnDate)).0 ==>
      ConfirmAsWritten(parse, today, f, price, confirmed) == Confirm(parse, today, f, price, confirmed)
  {
  }

  /** As written, a return date the day before the pickup date is flagged
      under its field and yet the booking is quoted, for two days; the
      fixed handler asks for corrections. */
  lemma ReturnBeforePickupBooks(parse: DateParser, today: int, f: Form, price: real, confirmed: bool)
    requires Trim(f.fullName) != "" && EmailValid(f.email) && PhoneValid(f.phone)
    requires ParseDate(parse, Trim(f.pickup)).Some? && ParseDate(parse, Trim(f.pickup)).value >= today
    requires ParseDate(parse, Trim(f.pickup)).value > 0
    requires ParseDate(parse, Trim(f.returnDate)) == Some(ParseDate(parse, Trim(f.pickup)).value - 1)
    ensures ConfirmAsWritten(parse, today, f, price, confirmed).labels.returnDate == ReturnBeforePickup
    ensures ConfirmAsWritten(parse, today, f, price, confirmed).outcome == Quote(2, TotalCost(price, 2), confirmed)
    ensures Confirm(parse, today, f, price, confirmed).outcome == Corrections
  {
    var t := Trimmed(f);
    var p := ParseDate(parse, t.pickup).value;
    assert CheckReturn(parse, t.pickup, t.returnDate) == (false, Some(ReturnBeforePickup));
    assert Review(parse, today, t).0;
    assert RentalDays(p, p - 1) == 2;
    assert QuoteFor(parse, t, price, confirmed) == Quote(2, TotalCost(price, 2), confirmed);
  }

  /** As written, an empty return date passes the chained validators and
      then fails the handler's own parse; the fixed handler asks for
      corrections with the "required" message. */
  lemma EmptyReturnAsWritten(parse: DateParser, today: int, f: Form, price: real, confirmed: bool)
    requires Trim(f.fullName) != "" && EmailValid(f.email) && PhoneValid(f.phone)
    requires ParseDate(parse, Trim(f.pickup)).Some? && ParseDate(parse, Trim(f.pickup)).value >= today
    requires Trim(f.returnDate) == ""
    ensures ConfirmAsWritten(parse, today, f, price, confirmed).labels.returnDate == ReturnRequired
    ensures ConfirmAsWritten(parse, today, f, price, confirmed).outcome == ParseFailure
    ensures Confirm(parse, today, f, price, confirmed).outcome == Corrections
  {
  }

  /** The same pair of dates counts the same days whichever comes first. */
  lemma RentalDaysSymmetric(p: int, q: int)
    ensures RentalDays(p, q) == RentalDays(q, p)
    ensures RentalDays(p, q) == Abs(q - p) + 1
  {
  }
}
