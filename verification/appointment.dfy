/** Booking an appointment: every doctor and patient field is required, and
    a doctor's time slot on a date can be booked only once. */
module Appointments {
  import opened Common

  /** The JSON body of `POST /add`. */
  datatype BookingRequest = BookingRequest(
    doctorId: Field,
    doctorName: Field,
    yearsOfExperience: Field,
    department: Field,
    date: Field,
    timeSlot: Field,
    consultantFees: Field,
    patientId: Field,
    name: Field,
    age: Field,
    gender: Field,
    bloodGroup: Field,
    reason: Field)

  /** A row of `appointments`: the booking's fields and its payment status. */
  datatype Appointment = Appointment(booking: BookingRequest, paymentStatus: string)

  /** The thirteen fields, in the order the handler tests them. */
  function RequiredFields(req: BookingRequest): (fs: seq<Field>)
    ensures |fs| == 13
  {
    [req.doctorId, req.doctorName, req.yearsOfExperience, req.department, req.date,
     req.timeSlot, req.consultantFees, req.patientId, req.name, req.age, req.gender,
     req.bloodGroup, req.reason]
  }

  /** The validation passes when every required field is truthy. */
  predicate AllRequired(req: BookingRequest) {
    forall i :: 0 <= i < 13 ==> Truthy(RequiredFields(req)[i])
  }

  /** The validation spelled out field by field, as the handler tests it. */
  lemma AllRequiredFieldByField(req: BookingRequest)
    ensures AllRequired(req) <==>
              && Truthy(req.doctorId) && Truthy(req.doctorName) && Truthy(req.yearsOfExperience)
              && Truthy(req.department) && Truthy(req.date) && Truthy(req.timeSlot)
              && Truthy(req.consultantFees) && Truthy(req.patientId) && Truthy(req.name)
              && Truthy(req.age) && Truthy(req.gender) && Truthy(req.bloodGroup) && Truthy(req.reason)
  {
    var fs := RequiredFields(req);
    assert fs[0] == req.doctorId && fs[1] == req.doctorName && fs[2] == req.yearsOfExperience;
    assert fs[3] == req.department && fs[4] == req.date && fs[5] == req.timeSlot;
    assert fs[6] == req.consultantFees && fs[7] == req.patientId && fs[8] == req.name;
    assert fs[9] == req.age && fs[10] == req.gender && fs[11] == req.bloodGroup && fs[12] == req.reason;
  }

  /** The booking holds the doctor's slot `timeSlot` on `date`. */
  predicate HoldsSlot(a: Appointment, doctorId: Field, date: Field, timeSlot: Field) {
    a.booking.doctorId == doctorId && a.booking.date == date && a.booking.timeSlot == timeSlot
  }

  /** `SELECT * FROM appointments WHERE doctorId = $1 AND date = $2 AND timeSlot = $3`. */
  function SlotBookings(rows: seq<Appointment>, doctorId: Field, date: Field, timeSlot: Field)
    : (r: seq<Appointment>)
    ensures forall a :: a in r ==> a in rows && HoldsSlot(a, doctorId, date, timeSlot)
    ensures forall i :: 0 <= i < |rows| && HoldsSlot(rows[i], doctorId, date, timeSlot) ==> rows[i] in r
    decreases |rows|
  {
    if |rows| == 0 then []
    else
      var rest := SlotBookings(rows[1..], doctorId, date, timeSlot);
      assert forall i :: 1 <= i < |rows| ==> rows[i] == rows[1..][i - 1];
      if HoldsSlot(rows[0], doctorId, date, timeSlot) then [rows[0]] + rest else rest
  }

  /** No two appointments share a doctor, date and time slot. */
  ghost predicate SlotsDistinct(rows: seq<Appointment>) {
    forall i, j :: 0 <= i < j < |rows| ==>
      !HoldsSlot(rows[j], rows[i].booking.doctorId, rows[i].booking.date, rows[i].booking.timeSlot)
  }

  datatype BookingOutcome = MissingFields | AlreadyBooked | Booked(appointment: Appointment)

  /** `POST /add` on the table `rows`: its answer and the table afterwards.
      A booking appends the request as it was sent, with payment pending;
      any other answer leaves the table as it was. */
  function Book(rows: seq<Appointment>, req: BookingRequest): (r: (BookingOutcome, seq<Appointment>))
    ensures r.0.Booked? ==> r.0.appointment == Appointment(req, "pending") && r.1 == rows + [r.0.appointment]
    ensures !r.0.Booked? ==> r.1 == rows
  {
    if !AllRequired(req) then (MissingFields, rows)
    else if |SlotBookings(rows, req.doctorId, req.date, req.timeSlot)| > 0 then (AlreadyBooked, rows)
    else
      var a := Appointment(req, "pending");
      (Booked(a), rows + [a])
  }

  /** The answers of a booking: missing fields exactly when a field is falsy;
      a refusal exactly when the slot is already held. */
  lemma BookOutcomes(rows: seq<Appointment>, req: BookingRequest)
    ensures Book(rows, req).0 == MissingFields <==>
              exists i :: 0 <= i < 13 && !Truthy(RequiredFields(req)[i])
    ensures Book(rows, req).0 == AlreadyBooked <==>
              AllRequired(req) && exists a :: a in rows && HoldsSlot(a, req.doctorId, req.date, req.timeSlot)
  {
    var found := SlotBookings(rows, req.doctorId, req.date, req.timeSlot);
    if exists a :: a in rows && HoldsSlot(a, req.doctorId, req.date, req.timeSlot) {
      var a :| a in rows && HoldsSlot(a, req.doctorId, req.date, req.timeSlot);
      var i :| 0 <= i < |rows| && rows[i] == a;
      assert rows[i] in found;
    }
    if |found| > 0 {
      assert found[0] in found;
    }
  }

  /** A falsy field, `0` included, is refused: an age or an experience of
      zero cannot be booked. */
  lemma ZeroYearsRefused(rows: seq<Appointment>, req: BookingRequest)
    requires req.yearsOfExperience == Number(0.0)
    ensures Book(rows, req).0 == MissingFields
  {
    assert !Truthy(RequiredFields(req)[2]);
  }

  /** Booking keeps every doctor's slots distinct. */
  lemma BookKeepsSlotsDistinct(rows: seq<Appointment>, req: BookingRequest)
    requires SlotsDistinct(rows)
    ensures SlotsDistinct(Book(rows, req).1)
  {
    var r := Book(rows, req).1;
    if Book(rows, req).0.Booked? {
      forall i, j | 0 <= i < j < |r|
        ensures !HoldsSlot(r[j], r[i].booking.doctorId, r[i].booking.date, r[i].booking.timeSlot)
      {
        if j == |rows| {
          assert r[i] == rows[i];
          assert rows[i] !in SlotBookings(rows, req.doctorId, req.date, req.timeSlot);
        }
      }
    }
  }

  /** The same request sent again is refused once it has been booked. */
  lemma RebookingRefused(rows: seq<Appointment>, req: BookingRequest)
    requires Book(rows, req).0.Booked?
    ensures Book(Book(rows, req).1, req).0 == AlreadyBooked
    ensures Book(Book(rows, req).1, req).1 == Book(rows, req).1
  {
    var r := Book(rows, req).1;
    assert HoldsSlot(r[|rows|], req.doctorId, req.date, req.timeSlot);
    assert r[|rows|] in SlotBookings(r, req.doctorId, req.date, req.timeSlot);
  }

  /** Requests handled one after another. */
  function BookAll(rows: seq<Appointment>, reqs: seq<BookingRequest>): seq<Appointment>
    decreases |reqs|
  {
    if |reqs| == 0 then rows else BookAll(Book(rows, reqs[0]).1, reqs[1..])
  }

  /** However many requests arrive in turn, no slot is held twice. */
  lemma {:induction false} BookAllKeepsSlotsDistinct(rows: seq<Appointment>, reqs: seq<BookingRequest>)
    requires SlotsDistinct(rows)
    ensures SlotsDistinct(BookAll(rows, reqs))
    decreases |reqs|
  {
    if |reqs| > 0 {
      BookKeepsSlotsDistinct(rows, reqs[0]);
      BookAllKeepsSlotsDistinct(Book(rows, reqs[0]).1, reqs[1..]);
    }
  }

  /** The `appointments` table. */
  class AppointmentTable {
    var rows: seq<Appointment>

    ghost predicate Valid()
      reads this
    {
      SlotsDistinct(rows)
    }

    constructor ()
      ensures Valid() && rows == []
    {
      rows := [];
    }

    /** `POST /add`: validate (400), check the slot (409), then insert (201). */
    method Add(req: BookingRequest) returns (outcome: BookingOutcome)
      requires Valid()
      modifies this
      ensures Valid()
      ensures (outcome, rows) == Book(old(rows), req)
    {
      BookKeepsSlotsDistinct(rows, req);
      AllRequiredFieldByField(req);
      if !Truthy(req.doctorId) || !Truthy(req.doctorName) || !Truthy(req.yearsOfExperience)
         || !Truthy(req.department) || !Truthy(req.date) || !Truthy(req.timeSlot)
         || !Truthy(req.consultantFees) || !Truthy(req.patientId) || !Truthy(req.name)
         || !Truthy(req.age) || !Truthy(req.gender) || !Truthy(req.bloodGroup) || !Truthy(req.reason) {
        return MissingFields;
      }
      var existing := SlotBookings(rows, req.doctorId, req.date, req.timeSlot);
      if |existing| > 0 {
        return AlreadyBooked;
      }
      var appointment := Appointment(req, "pending");
      rows := rows + [appointment];
      outcome := Booked(appointment);
    }
  }
}
