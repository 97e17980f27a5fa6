/** The booking rules of the planner page: its own copy of the string
    hash, the `booked` record and `toggleBook`, the selection count, the
    availability badge and when the book button is disabled. */
module Planner {
  import opened Js
  import SeedData

  /** The planner's `hashString` (lines 48-55), a copy of the seed data's:
      it returns the same value for every string. */
  method HashString(str: JsString) returns (r: int)
    ensures r == SeedData.HashValue(str)
    ensures 0 <= r <= TwoTo31
  {
    var h := 5381;
    for i := 0 to |str|
      invariant h == SeedData.Hash(str[..i])
    {
      assert str[..i + 1][..i] == str[..i];
      h := ToInt32(ToInt32(h * 32) + h + str[i]);
    }
    assert str[..|str|] == str;
    r := if h < 0 then -h else h;
  }

  /** The fields of a session the booking rules read. */
  datatype Session = Session(id: JsString, title: JsString, slotsLeft: int)

  /** The `booked` state: a record from session id to a boolean. */
  type Booked = map<JsString, bool>

  /** `!!booked[id]`: a missing key reads as undefined, which is false. */
  predicate IsBooked(booked: Booked, id: JsString): (b: bool)
    ensures id !in booked ==> !b
    ensures id in booked ==> b == booked[id]
  {
    id in booked && booked[id]
  }

  /** `toggleBook(s)` (lines 199-202): nothing for a sold-out session,
      otherwise `{ ...prev, [s.id]: !prev[s.id] }`. */
  function ToggleBook(booked: Booked, s: Session): (r: Booked)
    ensures s.slotsLeft == 0 ==> r == booked
    ensures s.slotsLeft != 0 ==> s.id in r && (IsBooked(r, s.id) <==> !IsBooked(booked, s.id))
    ensures forall k :: k != s.id ==> (k in r <==> k in booked) && (k in r ==> r[k] == booked[k])
  {
    if s.slotsLeft == 0 then booked else booked[s.id := !IsBooked(booked, s.id)]
  }

  /** Toggling twice gives every session back its booked status. */
  lemma ToggleTwice(booked: Booked, s: Session, k: JsString)
    ensures IsBooked(ToggleBook(ToggleBook(booked, s), s), k) == IsBooked(booked, k)
  {
  }

  /** The ids mapped to true: the booked sessions, all of them keys. */
  function Selected(booked: Booked): (r: set<JsString>)
    ensures r <= booked.Keys
    ensures forall k :: k in r <==> IsBooked(booked, k)
  {
    set k | k in booked && booked[k]
  }

  /** `Object.values(booked).filter(Boolean).length` (line 197): the values
      are taken one entry at a time, each true one counting 1, in whatever
      order the record enumerates its keys. The count is the number of
      sessions the user has booked. */
  ghost function SelectedCount(booked: Booked): (n: nat)
    ensures n == |Selected(booked)|
    decreases |booked|
  {
    if booked == map[] then 0
    else
      var k :| k in booked;
      var rest := booked - {k};
      assert rest.Keys == booked.Keys - {k};
      assert Selected(booked) == Selected(rest) + (if booked[k] then {k} else {});
      (if booked[k] then 1 else 0) + SelectedCount(rest)
  }

  /** A toggle moves the count by one, up when it books and down when it
      unbooks; a sold-out session leaves it. */
  lemma ToggleCount(booked: Booked, s: Session)
    ensures SelectedCount(ToggleBook(booked, s)) ==
      if s.slotsLeft == 0 then SelectedCount(booked)
      else if IsBooked(booked, s.id) then SelectedCount(booked) - 1
      else SelectedCount(booked) + 1
  {
    if s.slotsLeft != 0 {
      var after := Selected(ToggleBook(booked, s));
      if IsBooked(booked, s.id) {
        assert after == Selected(booked) - {s.id};
      } else {
        assert after == Selected(booked) + {s.id};
      }
    }
  }

  /** The availability badge of a session card. */
  datatype Badge = SoldOut | Warn | Open

  /** Lines 255-256 and 277-283: sold out at no slots, a warning for 1 to 3
      slots not booked by the user, open otherwise. */
  function BadgeFor(s: Session, booked: Booked): (b: Badge)
    ensures b == SoldOut <==> s.slotsLeft == 0
    ensures b == Warn <==> 1 <= s.slotsLeft <= 3 && !IsBooked(booked, s.id)
    ensures b == Open <==> s.slotsLeft != 0 && !(1 <= s.slotsLeft <= 3 && !IsBooked(booked, s.id))
  {
    var soldOut := s.slotsLeft == 0;
    var warn := s.slotsLeft > 0 && s.slotsLeft <= 3 && !IsBooked(booked, s.id);
    if soldOut then SoldOut else if warn then Warn else Open
  }

  /** The book button's `disabled={soldOut}` (line 316): disabled exactly
      when a toggle would leave every `booked` state as it is. */
  predicate BookDisabled(s: Session): (b: bool)
    ensures b ==> forall booked :: ToggleBook(booked, s) == booked
    ensures !b ==> forall booked :: ToggleBook(booked, s) != booked
  {
    s.slotsLeft == 0
  }

  /** The button is disabled exactly when the badge says sold out, and a
      disabled session cannot be toggled. */
  lemma DisabledIsSoldOut(s: Session, booked: Booked)
    ensures BookDisabled(s) <==> BadgeFor(s, booked) == SoldOut
    ensures BookDisabled(s) ==> ToggleBook(booked, s) == booked
  {
  }

  /** Booking a session with few slots clears its warning. */
  lemma BookingClearsWarning(booked: Booked, s: Session)
    requires 1 <= s.slotsLeft <= 3 && !IsBooked(booked, s.id)
    ensures BadgeFor(s, booked) == Warn && BadgeFor(s, ToggleBook(booked, s)) == Open
  {
  }
}
