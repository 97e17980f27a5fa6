/** The attendance scanner: which scanned codes it acts on, the booking id
    it reads out of a ticket payload, and `markAttended` over the stored
    list of bookings. */
module Scan {
  import opened Js
  import Symbol

  // ---------------------------------------------------------------------
  // Ticket payloads

  /** The code unit of ":". */
  const Colon: CodeUnit := 0x3A

  /** The prefix a ticket's QR payload starts with. */
  function TicketPrefix(): (p: JsString)
    ensures |p| == 18
  {
    Ascii("openhouse:booking:")
  }

  /** The payload a ticket for booking `id` shows: `openhouse:booking:${id}`,
      the prefix followed by the id unchanged. */
  function TicketPayload(id: JsString): (r: JsString)
    ensures |r| == |TicketPrefix()| + |id|
    ensures r[..|TicketPrefix()|] == TicketPrefix() && r[|TicketPrefix()|..] == id
  {
    TicketPrefix() + id
  }

  /** `raw.startsWith("openhouse:booking:")`: the payloads it accepts are
      exactly the ticket payloads of some id. */
  predicate IsTicketPayload(raw: JsString): (b: bool)
    ensures b <==> exists id :: raw == TicketPayload(id)
  {
    var p := TicketPrefix();
    var ok := |p| <= |raw| && raw[..|p|] == p;
    assert ok ==> raw == TicketPayload(raw[|p|..]) by {
      if ok {
        assert raw == p + raw[|p|..];
      }
    }
    ok
  }

  /** `raw.split(":").pop()`: the text after the last colon, or all of raw
      when it has none. */
  function LastSegment(raw: JsString): (r: JsString)
    ensures |r| <= |raw| && r == raw[|raw| - |r|..]
    ensures Colon !in r
    ensures |r| < |raw| ==> raw[|raw| - |r| - 1] == Colon
  {
    if raw == [] then []
    else if raw[|raw| - 1] == Colon then []
    else LastSegment(raw[..|raw| - 1]) + [raw[|raw| - 1]]
  }

  /** Every ticket payload is acted on. */
  lemma TicketPayloadAccepted(id: JsString)
    ensures IsTicketPayload(TicketPayload(id))
  {
    assert TicketPayload(id)[..|TicketPrefix()|] == TicketPrefix();
  }

  /** Reading a ticket gives its booking id back exactly when the id has no
      colon; otherwise only the part after its last colon comes back. */
  lemma {:induction false} ExtractId(id: JsString)
    ensures LastSegment(TicketPayload(id)) == id <==> Colon !in id
    ensures Colon in id ==> |LastSegment(TicketPayload(id))| < |id|
  {
    SegmentOfSuffix(TicketPrefix(), id);
  }

  /** After a colon, the last segment of p + s is that of s. */
  lemma {:induction false} SegmentOfSuffix(p: JsString, s: JsString)
    requires |p| > 0 && p[|p| - 1] == Colon
    ensures LastSegment(p + s) == LastSegment(s)
    decreases |s|
  {
    if s == [] {
      assert p + s == p;
    } else {
      var s' := s[..|s| - 1];
      assert (p + s)[..|p + s| - 1] == p + s';
      SegmentOfSuffix(p, s');
    }
  }

  /** The ticket's QR symbol sees only the first three units of the booking
      id: the prefix takes 18 of the 21 units that fit, so two ids of the
      same length that start alike get the same symbol. */
  lemma TicketsCollide(id1: JsString, id2: JsString, i: int, j: int)
    requires |id1| == |id2| >= 3 && id1[..3] == id2[..3]
    requires 0 <= i < Symbol.Size && 0 <= j < Symbol.Size
    ensures Symbol.SymbolModule(TicketPayload(id1), i, j) == Symbol.SymbolModule(TicketPayload(id2), i, j)
  {
    var t1, t2 := TicketPayload(id1), TicketPayload(id2);
    assert t1[..21] == TicketPrefix() + id1[..3];
    assert t2[..21] == TicketPrefix() + id2[..3];
    Symbol.TailIgnoredSymbol(t1, t2, i, j);
  }

  /** Every ticket's symbol has module (1, 23) dark, although it is a light
      module of the top-right finder pattern: data bit 40 lands there, and
      it is bit 3 of the payload's fourth unit, the "n" of "openhouse". */
  lemma TicketFinderCorrupted(id: JsString)
    ensures Symbol.SymbolModule(TicketPayload(id), 1, 23)
    ensures !Symbol.StampedDark(1, 23)
  {
    var t := TicketPayload(id);
    Symbol.TopRightOverwritten(t);
    assert t[3] == 0x6E;
    assert BitOf(0x6E, 3);
  }

  // ---------------------------------------------------------------------
  // markAttended

  /** A stored booking; `attendedAt` is null (None) or an ISO time. */
  datatype Booking = Booking(id: JsString, sessionId: JsString, createdAt: JsString, attendedAt: Option<JsString>)

  /** The scanner's status line. */
  datatype Status = Idle | Marked | AlreadyMarked | NotFound | CameraError

  /** `!list[idx].attendedAt`: null and the empty string are both falsy. */
  predicate Unattended(b: Booking) {
    b.attendedAt.None? || b.attendedAt.value == []
  }

  /** `list.findIndex((b) => b.id === bookingId)`: the first match, or -1. */
  function FindIndex(list: seq<Booking>, bookingId: JsString): (idx: int)
    ensures -1 <= idx < |list|
    ensures idx == -1 <==> forall i :: 0 <= i < |list| ==> list[i].id != bookingId
    ensures idx >= 0 ==> list[idx].id == bookingId && forall i :: 0 <= i < idx ==> list[i].id != bookingId
  {
    if list == [] then -1
    else if list[0].id == bookingId then 0
    else
      var rest := FindIndex(list[1..], bookingId);
      if rest == -1 then -1 else rest + 1
  }

  /** What one `markAttended(bookingId)` leaves: the stored list and the status. */
  datatype Scanned = Scanned(list: seq<Booking>, status: Status)

  /** The effect of `markAttended(bookingId)` at time `now` on the stored list. */
  function Mark(list: seq<Booking>, bookingId: JsString, now: JsString): (r: Scanned)
    ensures |r.list| == |list|
  {
    var idx := FindIndex(list, bookingId);
    if idx >= 0 then
      if Unattended(list[idx]) then Scanned(list[idx := list[idx].(attendedAt := Some(now))], Marked)
      else Scanned(list, AlreadyMarked)
    else Scanned(list, NotFound)
  }

  /** An unknown id changes nothing and reports not_found. */
  lemma MarkUnknown(list: seq<Booking>, bookingId: JsString, now: JsString)
    requires forall i :: 0 <= i < |list| ==> list[i].id != bookingId
    ensures Mark(list, bookingId, now) == Scanned(list, NotFound)
  {
  }

  /** A known id whose first booking is unattended gets exactly that entry
      stamped with now; every other entry stays as it was. */
  lemma MarkFirst(list: seq<Booking>, bookingId: JsString, now: JsString, k: int)
    requires 0 <= k < |list| && list[k].id == bookingId && Unattended(list[k])
    requires forall i :: 0 <= i < k ==> list[i].id != bookingId
    ensures Mark(list, bookingId, now).status == Marked
    ensures Mark(list, bookingId, now).list[k] == list[k].(attendedAt := Some(now))
    ensures forall i :: 0 <= i < |list| && i != k ==> Mark(list, bookingId, now).list[i] == list[i]
  {
  }

  /** A known id whose first booking already has an attendance time changes
      nothing and reports already_marked. */
  lemma MarkAlready(list: seq<Booking>, bookingId: JsString, now: JsString, k: int)
    requires 0 <= k < |list| && list[k].id == bookingId && !Unattended(list[k])
    requires forall i :: 0 <= i < k ==> list[i].id != bookingId
    ensures Mark(list, bookingId, now) == Scanned(list, AlreadyMarked)
  {
  }

  /** Marking is idempotent: a second scan of the same ticket, at any later
      time, changes nothing and reports already_marked (an ISO time is
      never empty). */
  lemma MarkTwice(list: seq<Booking>, bookingId: JsString, now: JsString, later: JsString)
    requires |now| > 0
    requires Mark(list, bookingId, now).status != NotFound
    ensures var once := Mark(list, bookingId, now).list;
      Mark(once, bookingId, later) == Scanned(once, AlreadyMarked)
  {
    var idx := FindIndex(list, bookingId);
    var once := Mark(list, bookingId, now).list;
    assert forall i :: 0 <= i < |once| ==> once[i].id == list[i].id;
    assert FindIndex(once, bookingId) == idx;
  }

  /** The scanner page: the stored bookings (the `bookings` entry of local
      storage), the status line and the last code read. */
  class Scanner {
    var stored: seq<Booking>
    var status: Status
    var lastCode: Option<JsString>

    constructor(bookings: seq<Booking>)
      ensures stored == bookings && status == Idle && lastCode == None
    {
      stored := bookings;
      status := Idle;
      lastCode := None;
    }

    /** `markAttended(bookingId)` (lines 68-82), with `new Date().toISOString()`
        passed in as now. */
    method MarkAttended(bookingId: JsString, now: JsString)
      modifies this
      ensures Scanned(stored, status) == Mark(old(stored), bookingId, now)
      ensures lastCode == old(lastCode)
    {
      var list := stored;
      var idx := FindIndex(list, bookingId);
      if idx >= 0 {
        if Unattended(list[idx]) {
          list := list[idx := list[idx].(attendedAt := Some(now))];
          stored := list;
          status := Marked;
        } else {
          status := AlreadyMarked;
        }
      } else {
        status := NotFound;
      }
    }

    /** A detected code (lines 45-50): remembered as the last code, and acted
        on only when it is a ticket payload, with the id after its last colon. */
    method Detected(raw: JsString, now: JsString)
      modifies this
      ensures lastCode == Some(raw)
      ensures IsTicketPayload(raw) ==> Scanned(stored, status) == Mark(old(stored), LastSegment(raw), now)
      ensures !IsTicketPayload(raw) ==> stored == old(stored) && status == old(status)
    {
      lastCode := Some(raw);
      if IsTicketPayload(raw) {
        var id := LastSegment(raw);
        MarkAttended(id, now);
      }
    }
  }
}
