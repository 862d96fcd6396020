/**
 * The attendee import and ticket bookkeeping of the desktop ticket tool:
 * `load_csv` reads attendees for a selected event into the Attendees and
 * Tickets tables and lists them in the on-screen tree, and `save_changes`
 * writes the ticket types edited in the tree back to the Tickets table.
 *
 * The SQLite tables are sequences of rows with one AUTOINCREMENT counter
 * each; the constraints of the schema (the `ticket_type` CHECK, the
 * UNIQUE `barcode`, the NOT NULL attendee name and phone) are checked
 * where a statement would violate them. A refused statement raises, and
 * SQLite undoes that statement alone; the handlers let the exception
 * escape with their transaction open and uncommitted, and it is discarded
 * when the connection is finalised. The model applies that rollback as
 * soon as the statement is refused. The file dialog, the selected event
 * and the parsed CSV are inputs.
 */
module TicketManager {
  import opened Results
  import opened Decimal

  // ---------------------------------------------------------------------
  // The tables.

  datatype Event = Event(eventId: nat, name: string)
  datatype Attendee = Attendee(attendeeId: nat, name: string, phone: string, email: Option<string>)
  datatype Ticket = Ticket(ticketId: nat, attendeeId: nat, eventId: nat,
                           ticketType: string, barcode: string, passDesign: string)

  /** The three tables and the next id each AUTOINCREMENT key hands out. */
  datatype Tables = Tables(events: seq<Event>, attendees: seq<Attendee>, tickets: seq<Ticket>,
                           nextEventId: nat, nextAttendeeId: nat, nextTicketId: nat)

  /** A freshly created database: empty tables, ids counting from 1. */
  const EmptyTables: Tables := Tables([], [], [], 1, 1, 1)

  /** The `ticket_type` values the schema's CHECK constraint admits. */
  const SchemaTicketTypes: set<string> := {"WVIP", "VIP", "Normal", "Staff"}

  /** The choices the ticket-type editor offers, in display order. */
  const EditorTicketTypes: seq<string> := ["VVIP", "VIP", "Normal", "Staff"]

  /** The CHECK set the editor's choices call for: its `WVIP` read as `VVIP`. */
  const IntendedTicketTypes: set<string> := {"VVIP", "VIP", "Normal", "Staff"}

  /** The columns the import insists on, in the order it checks them. */
  const RequiredFields: seq<string> := ["name", "phone", "email"]

  const ImportedTicketType: string := "Normal"
  const DefaultPassDesign: string := "default"

  // ---------------------------------------------------------------------
  // Barcodes.

  function UpperChar(c: char): char {
    if 'a' <= c <= 'z' then (c as int - 32) as char else c
  }

  /** Upper-casing, on ASCII letters. */
  function Upper(s: string): (u: string)
    ensures |u| == |s|
  {
    seq(|s|, i requires 0 <= i < |s| => UpperChar(s[i]))
  }

  /** The barcode's name prefix: at most the first three characters, upper-cased. */
  function NamePrefix(name: string): string {
    Upper(if |name| < 3 then name else name[..3])
  }

  /** The barcode of an imported ticket: name prefix, event id and attendee id joined by dashes. */
  function Barcode(name: string, eventId: nat, attendeeId: nat): string {
    NamePrefix(name) + "-" + NatToString(eventId) + "-" + NatToString(attendeeId)
  }

  /** The text after the last `-`, or all of `s` when it has none. */
  function LastSegment(s: string): string {
    if s == [] || s[|s| - 1] == '-' then [] else LastSegment(s[..|s| - 1]) + [s[|s| - 1]]
  }

  lemma {:induction false} LastSegmentAfterDash(prefix: string, digits: string)
    requires AllDigits(digits)
    ensures LastSegment(prefix + "-" + digits) == digits
  {
    if digits != [] {
      var s := prefix + "-" + digits;
      var front := digits[..|digits| - 1];
      assert s[..|s| - 1] == prefix + "-" + front;
      assert IsDigit(digits[|digits| - 1]);
      LastSegmentAfterDash(prefix, front);
      assert digits == front + [digits[|digits| - 1]];
    }
  }

  /** The attendee id is the barcode's last dash-separated segment. */
  lemma BarcodeEndsWithAttendee(name: string, eventId: nat, attendeeId: nat)
    ensures LastSegment(Barcode(name, eventId, attendeeId)) == NatToString(attendeeId)
  {
    LastSegmentAfterDash(NamePrefix(name) + "-" + NatToString(eventId), NatToString(attendeeId));
  }

  /**
   * The barcode is the upper-cased name prefix of at most three
   * characters, the event id and the attendee id, joined by dashes; its
   * last dash-separated segment is the attendee id.
   */
  lemma BarcodeLayout(name: string, eventId: nat, attendeeId: nat)
    ensures var b := Barcode(name, eventId, attendeeId);
      var p := NamePrefix(name);
      && |p| == (if |name| < 3 then |name| else 3)
      && (forall i :: 0 <= i < |p| ==> p[i] == UpperChar(name[i]))
      && b == p + "-" + NatToString(eventId) + "-" + NatToString(attendeeId)
      && LastSegment(b) == NatToString(attendeeId)
  {
    BarcodeEndsWithAttendee(name, eventId, attendeeId);
  }

  /** Distinct attendee ids give distinct barcodes, whatever the names and events. */
  lemma BarcodeInjective(name1: string, eventId1: nat, attendeeId1: nat,
                         name2: string, eventId2: nat, attendeeId2: nat)
    requires attendeeId1 != attendeeId2
    ensures Barcode(name1, eventId1, attendeeId1) != Barcode(name2, eventId2, attendeeId2)
  {
    BarcodeEndsWithAttendee(name1, eventId1, attendeeId1);
    BarcodeEndsWithAttendee(name2, eventId2, attendeeId2);
    NatToStringInjective(attendeeId1, attendeeId2);
  }

  // ---------------------------------------------------------------------
  // The on-screen tree.

  /** One line of the attendee tree: name, phone, email, ticket type. */
  datatype TreeRow = TreeRow(name: string, phone: string, email: string, ticketType: string)

  /**
   * A cell as the tree returns it when its values are read. The tree hands back
   * a cell that parses as an integer as an `int`, and SQLite compares an
   * integer with a TEXT column as its decimal text: a cell of digits comes
   * back as the decimal of its value.
   */
  function TkCell(s: string): string {
    if s != [] && AllDigits(s) then NatToString(DigitsValue(s)) else s
  }

  /** A cell comes back altered exactly when it is a digit string with a leading zero. */
  lemma TkCellAlters(s: string)
    ensures TkCell(s) != s <==> |s| > 1 && AllDigits(s) && s[0] == '0'
  {
    if s != [] && AllDigits(s) {
      CanonicalDigits(s);
    }
  }

  /** Reading a cell back a second time changes nothing more. */
  lemma TkCellIdempotent(s: string)
    ensures TkCell(TkCell(s)) == TkCell(s)
  {
    if s != [] && AllDigits(s) {
      NatToStringRoundTrip(DigitsValue(s));
    }
  }

  /** Tk shows a missing CSV value as the text `None`. */
  function Shown(v: Option<string>): string {
    if v.Some? then v.value else "None"
  }

  // ---------------------------------------------------------------------
  // The CSV file as `csv.DictReader` delivers it.

  /** A CSV record; a value is missing when its line is shorter than the header. */
  datatype CsvRow = CsvRow(name: Option<string>, phone: Option<string>, email: Option<string>)

  /** `reader.fieldnames` is `None` for an empty file. */
  datatype CsvFile = CsvFile(fieldnames: Option<seq<string>>, rows: seq<CsvRow>)

  /** The tree line a row adds: the values as read and the type `Normal`. */
  function ImportedRow(row: CsvRow): TreeRow {
    TreeRow(Shown(row.name), Shown(row.phone), Shown(row.email), ImportedTicketType)
  }

  function ImportedRows(rows: seq<CsvRow>): (shown: seq<TreeRow>)
    ensures |shown| == |rows|
  {
    seq(|rows|, i requires 0 <= i < |rows| => ImportedRow(rows[i]))
  }

  /** Every row of the tree carries a type the editor offers. */
  predicate EditorTypes(tree: seq<TreeRow>) {
    forall i :: 0 <= i < |tree| ==> tree[i].ticketType in EditorTicketTypes
  }

  /** Imported rows show `Normal`, one of the editor's choices. */
  lemma ImportedRowsEditorTypes(tree: seq<TreeRow>, rows: seq<CsvRow>)
    requires EditorTypes(tree)
    ensures EditorTypes(tree + ImportedRows(rows))
  {
    assert EditorTicketTypes[2] == ImportedTicketType;
  }

  /** The first required column the header lacks, if any. */
  function MissingColumn(fieldnames: seq<string>): (missing: Option<string>)
    ensures missing.None? <==> forall f :: f in RequiredFields ==> f in fieldnames
    ensures missing.Some? ==>
      exists i :: 0 <= i < |RequiredFields| && missing.value == RequiredFields[i]
        && missing.value !in fieldnames
        && forall j :: 0 <= j < i ==> RequiredFields[j] in fieldnames
  {
    assert RequiredFields[0] == "name" && RequiredFields[1] == "phone" && RequiredFields[2] == "email";
    if "name" !in fieldnames then Some("name")
    else if "phone" !in fieldnames then Some("phone")
    else if "email" !in fieldnames then Some("email")
    else None
  }

  /** Lines 62-68: the header check, column by column in the order `name`, `phone`, `email`. */
  method FindMissingColumn(fieldnames: seq<string>) returns (missing: Option<string>)
    ensures missing == MissingColumn(fieldnames)
  {
    var k := 0;
    while k < |RequiredFields|
      invariant 0 <= k <= |RequiredFields|
      invariant forall j :: 0 <= j < k ==> RequiredFields[j] in fieldnames
    {
      if RequiredFields[k] !in fieldnames {
        return Some(RequiredFields[k]);
      }
      k := k + 1;
    }
    return None;
  }

  // ---------------------------------------------------------------------
  // Events.

  /** The event lookup by name: the id of the first event of that name. */
  function FindEvent(events: seq<Event>, name: string): (r: Option<nat>)
    ensures r.None? <==> forall i :: 0 <= i < |events| ==> events[i].name != name
    ensures r.Some? ==> exists i :: 0 <= i < |events| && events[i] == Event(r.value, name)
                                    && forall j :: 0 <= j < i ==> events[j].name != name
  {
    if events == [] then None
    else if events[0].name == name then Some(events[0].eventId)
    else
      var r := FindEvent(events[1..], name);
      assert r.Some? ==> exists i :: 1 <= i < |events| && events[i] == Event(r.value, name)
                                     && forall j :: 0 <= j < i ==> events[j].name != name by {
        if r.Some? {
          var i :| 0 <= i < |events| - 1 && events[1..][i] == Event(r.value, name)
                   && forall j :: 0 <= j < i ==> events[1..][j].name != name;
          assert events[i + 1] == Event(r.value, name);
          assert forall j :: 0 <= j < i + 1 ==> events[j].name != name by {
            forall j | 0 <= j < i + 1 ensures events[j].name != name {
              if j > 0 { assert events[j] == events[1..][j - 1]; }
            }
          }
        }
      }
      r
  }

  /** After an event is appended under a name no earlier event has, the lookup finds it. */
  lemma {:induction false} FindEventAppended(events: seq<Event>, e: Event)
    requires forall i :: 0 <= i < |events| ==> events[i].name != e.name
    ensures FindEvent(events + [e], e.name) == Some(e.eventId)
  {
    if events != [] {
      assert (events + [e])[1..] == events[1..] + [e];
      FindEventAppended(events[1..], e);
    }
  }

  /**
   * Lines 50-58: the selected event's id. When no event has the name,
   * one is inserted and the lookup is repeated.
   */
  function GetOrCreateEvent(db: Tables, name: string): (Tables, nat) {
    match FindEvent(db.events, name)
    case Some(eventId) => (db, eventId)
    case None =>
      var inserted := db.(events := db.events + [Event(db.nextEventId, name)], nextEventId := db.nextEventId + 1);
      FindEventAppended(db.events, Event(db.nextEventId, name));
      (inserted, FindEvent(inserted.events, name).value)
  }

  // ---------------------------------------------------------------------
  // The import.

  /** Whether some ticket already carries this barcode: the UNIQUE constraint. */
  predicate BarcodeTaken(tickets: seq<Ticket>, barcode: string) {
    exists i :: 0 <= i < |tickets| && tickets[i].barcode == barcode
  }

  /** A row whose name and phone are present: the attendee INSERT meets NOT NULL. */
  predicate Complete(row: CsvRow) {
    row.name.Some? && row.phone.Some?
  }

  /**
   * Lines 71-80 for one row: the attendee INSERT, then the ticket INSERT
   * of type `Normal` with the derived barcode; `None` when the database
   * refuses either.
   */
  function ImportRow(checkTypes: set<string>, db: Tables, eventId: nat, row: CsvRow): Option<Tables> {
    if !Complete(row) then None
    else
      var attendeeId := db.nextAttendeeId;
      var barcode := Barcode(row.name.value, eventId, attendeeId);
      if ImportedTicketType !in checkTypes || BarcodeTaken(db.tickets, barcode) then None
      else
        Some(db.(attendees := db.attendees + [Attendee(attendeeId, row.name.value, row.phone.value, row.email)],
                 tickets := db.tickets + [Ticket(db.nextTicketId, attendeeId, eventId, ImportedTicketType,
                                                 barcode, DefaultPassDesign)],
                 nextAttendeeId := attendeeId + 1,
                 nextTicketId := db.nextTicketId + 1))
  }

  datatype ImportResult = Imported(db: Tables) | Rejected(row: nat)

  /** Lines 70-81: the rows in order, up to the first one the database refuses. */
  function ImportRows(checkTypes: set<string>, db: Tables, eventId: nat, rows: seq<CsvRow>): (r: ImportResult)
    ensures r.Rejected? ==> r.row < |rows|
    decreases |rows|
  {
    if rows == [] then Imported(db)
    else
      match ImportRows(checkTypes, db, eventId, rows[..|rows| - 1])
      case Rejected(k) => Rejected(k)
      case Imported(d) =>
        match ImportRow(checkTypes, d, eventId, rows[|rows| - 1])
        case None => Rejected(|rows| - 1)
        case Some(d1) => Imported(d1)
  }

  // ---------------------------------------------------------------------
  // What the tables keep true.

  predicate TicketValid(checkTypes: set<string>, db: Tables, t: Ticket) {
    && t.ticketType in checkTypes
    && t.ticketId < db.nextTicketId
    && t.attendeeId < db.nextAttendeeId
    && LastSegment(t.barcode) == NatToString(t.attendeeId)
  }

  /**
   * Every id lies below its counter and ids increase along each table;
   * every ticket type passes the CHECK; every barcode ends in its ticket's
   * attendee id, and tickets are held by distinct attendees.
   */
  predicate ValidTables(checkTypes: set<string>, db: Tables) {
    && (forall i :: 0 <= i < |db.events| ==> db.events[i].eventId < db.nextEventId)
    && (forall i, j :: 0 <= i < j < |db.events| ==> db.events[i].eventId < db.events[j].eventId)
    && (forall i :: 0 <= i < |db.attendees| ==> db.attendees[i].attendeeId < db.nextAttendeeId)
    && (forall i, j :: 0 <= i < j < |db.attendees| ==> db.attendees[i].attendeeId < db.attendees[j].attendeeId)
    && (forall i :: 0 <= i < |db.tickets| ==> TicketValid(checkTypes, db, db.tickets[i]))
    && (forall i, j :: 0 <= i < j < |db.tickets| ==>
          db.tickets[i].ticketId < db.tickets[j].ticketId && db.tickets[i].attendeeId < db.tickets[j].attendeeId)
  }

  /** The UNIQUE barcode column holds: no two tickets share a barcode. */
  lemma ValidBarcodesUnique(checkTypes: set<string>, db: Tables)
    requires ValidTables(checkTypes, db)
    ensures forall i, j :: 0 <= i < j < |db.tickets| ==> db.tickets[i].barcode != db.tickets[j].barcode
  {
    forall i, j | 0 <= i < j < |db.tickets|
      ensures db.tickets[i].barcode != db.tickets[j].barcode
    {
      assert TicketValid(checkTypes, db, db.tickets[i]) && TicketValid(checkTypes, db, db.tickets[j]);
      NatToStringInjective(db.tickets[i].attendeeId, db.tickets[j].attendeeId);
    }
  }

  /** Event get-or-create, first case: an event of that name exists; the first one is reused and nothing is inserted. */
  lemma GetOrCreateEventReuses(db: Tables, name: string, i: nat)
    requires i < |db.events| && db.events[i].name == name
    ensures GetOrCreateEvent(db, name).0 == db
    ensures exists k :: 0 <= k < |db.events| && db.events[k] == Event(GetOrCreateEvent(db, name).1, name)
                        && forall j :: 0 <= j < k ==> db.events[j].name != name
  {
  }

  /**
   * Event get-or-create, second case: no event has the name; exactly one
   * event is appended, under the next id, which is the id used and is
   * above every earlier event's id.
   */
  lemma GetOrCreateEventInserts(checkTypes: set<string>, db: Tables, name: string)
    requires ValidTables(checkTypes, db)
    requires forall i :: 0 <= i < |db.events| ==> db.events[i].name != name
    ensures var (db1, eventId) := GetOrCreateEvent(db, name);
      && db1 == db.(events := db.events + [Event(eventId, name)], nextEventId := eventId + 1)
      && eventId == db.nextEventId
      && forall i :: 0 <= i < |db.events| ==> db.events[i].eventId < eventId
  {
    FindEventAppended(db.events, Event(db.nextEventId, name));
  }

  /** Get-or-create keeps the tables valid. */
  lemma GetOrCreateEventValid(checkTypes: set<string>, db: Tables, name: string)
    requires ValidTables(checkTypes, db)
    ensures ValidTables(checkTypes, GetOrCreateEvent(db, name).0)
  {
    if forall i :: 0 <= i < |db.events| ==> db.events[i].name != name {
      GetOrCreateEventInserts(checkTypes, db, name);
      var db1 := GetOrCreateEvent(db, name).0;
      assert forall i :: 0 <= i < |db1.tickets| ==> TicketValid(checkTypes, db1, db1.tickets[i]) by {
        forall i | 0 <= i < |db1.tickets| ensures TicketValid(checkTypes, db1, db1.tickets[i]) {
          assert TicketValid(checkTypes, db, db.tickets[i]);
        }
      }
    }
  }

  /** The barcode a row would receive is not yet taken. */
  lemma FreshBarcode(checkTypes: set<string>, db: Tables, name: string, eventId: nat)
    requires ValidTables(checkTypes, db)
    ensures !BarcodeTaken(db.tickets, Barcode(name, eventId, db.nextAttendeeId))
  {
    var barcode := Barcode(name, eventId, db.nextAttendeeId);
    BarcodeEndsWithAttendee(name, eventId, db.nextAttendeeId);
    forall i | 0 <= i < |db.tickets|
      ensures db.tickets[i].barcode != barcode
    {
      assert TicketValid(checkTypes, db, db.tickets[i]);
      NatToStringInjective(db.tickets[i].attendeeId, db.nextAttendeeId);
    }
  }

  /**
   * Appending an attendee under the next attendee id and a ticket under the
   * next ticket id, held by that attendee, of a type the CHECK admits and
   * with a barcode ending in that attendee id, keeps the tables valid.
   */
  lemma AppendValid(checkTypes: set<string>, db: Tables, a: Attendee, t: Ticket)
    requires ValidTables(checkTypes, db)
    requires a.attendeeId == db.nextAttendeeId && t.attendeeId == a.attendeeId && t.ticketId == db.nextTicketId
    requires t.ticketType in checkTypes && LastSegment(t.barcode) == NatToString(t.attendeeId)
    ensures ValidTables(checkTypes, db.(attendees := db.attendees + [a], tickets := db.tickets + [t],
                                       nextAttendeeId := a.attendeeId + 1, nextTicketId := t.ticketId + 1))
  {
    var db1 := db.(attendees := db.attendees + [a], tickets := db.tickets + [t],
                   nextAttendeeId := a.attendeeId + 1, nextTicketId := t.ticketId + 1);
    forall i | 0 <= i < |db1.tickets|
      ensures TicketValid(checkTypes, db1, db1.tickets[i])
    {
      if i < |db.tickets| {
        assert db1.tickets[i] == db.tickets[i];
        assert TicketValid(checkTypes, db, db.tickets[i]);
      }
    }
    forall i, j | 0 <= i < j < |db1.attendees|
      ensures db1.attendees[i].attendeeId < db1.attendees[j].attendeeId
    {
      assert db1.attendees[i] == db.attendees[i];
    }
    forall i, j | 0 <= i < j < |db1.tickets|
      ensures db1.tickets[i].ticketId < db1.tickets[j].ticketId && db1.tickets[i].attendeeId < db1.tickets[j].attendeeId
    {
      assert db1.tickets[i] == db.tickets[i];
      assert TicketValid(checkTypes, db, db.tickets[i]);
    }
  }

  /** Each complete row is accepted when the CHECK admits `Normal`, and the tables stay valid. */
  lemma ImportRowAccepted(checkTypes: set<string>, db: Tables, eventId: nat, row: CsvRow)
    requires ValidTables(checkTypes, db) && ImportedTicketType in checkTypes && Complete(row)
    ensures ImportRow(checkTypes, db, eventId, row).Some?
    ensures ValidTables(checkTypes, ImportRow(checkTypes, db, eventId, row).value)
  {
    var attendeeId := db.nextAttendeeId;
    var barcode := Barcode(row.name.value, eventId, attendeeId);
    var a := Attendee(attendeeId, row.name.value, row.phone.value, row.email);
    var t := Ticket(db.nextTicketId, attendeeId, eventId, ImportedTicketType, barcode, DefaultPassDesign);
    var db1 := db.(attendees := db.attendees + [a], tickets := db.tickets + [t],
                   nextAttendeeId := a.attendeeId + 1, nextTicketId := t.ticketId + 1);
    FreshBarcode(checkTypes, db, row.name.value, eventId);
    assert ImportRow(checkTypes, db, eventId, row) == Some(db1);
    BarcodeEndsWithAttendee(row.name.value, eventId, attendeeId);
    AppendValid(checkTypes, db, a, t);
  }

  /**
   * What importing `rows` into `db` leaves in `d`: each row added exactly
   * one attendee, under the next attendee id, and one ticket, under the
   * next ticket id, held by that attendee for the selected event, of type
   * `Normal`, with design `default` and the derived barcode; the events
   * and the earlier rows are as they were.
   */
  ghost predicate ImportedContent(db: Tables, d: Tables, eventId: nat, rows: seq<CsvRow>) {
    && d.events == db.events && d.nextEventId == db.nextEventId
    && |d.attendees| == |db.attendees| + |rows| && d.attendees[..|db.attendees|] == db.attendees
    && |d.tickets| == |db.tickets| + |rows| && d.tickets[..|db.tickets|] == db.tickets
    && d.nextAttendeeId == db.nextAttendeeId + |rows| && d.nextTicketId == db.nextTicketId + |rows|
    && forall i :: 0 <= i < |rows| ==>
         && Complete(rows[i])
         && d.attendees[|db.attendees| + i]
            == Attendee(db.nextAttendeeId + i, rows[i].name.value, rows[i].phone.value, rows[i].email)
         && d.tickets[|db.tickets| + i]
            == Ticket(db.nextTicketId + i, db.nextAttendeeId + i, eventId, ImportedTicketType,
                      Barcode(rows[i].name.value, eventId, db.nextAttendeeId + i), DefaultPassDesign)
  }

  lemma ImportedContentStep(checkTypes: set<string>, db: Tables, d: Tables, eventId: nat,
                            front: seq<CsvRow>, last: CsvRow)
    requires ImportedContent(db, d, eventId, front)
    requires ImportRow(checkTypes, d, eventId, last).Some?
    ensures ImportedContent(db, ImportRow(checkTypes, d, eventId, last).value, eventId, front + [last])
  {
    var rows := front + [last];
    var d1 := ImportRow(checkTypes, d, eventId, last).value;
    assert d1.attendees == d.attendees + [d1.attendees[|d.attendees|]];
    assert d1.tickets == d.tickets + [d1.tickets[|d.tickets|]];
    assert d1.attendees[..|db.attendees|] == d.attendees[..|db.attendees|];
    assert d1.tickets[..|db.tickets|] == d.tickets[..|db.tickets|];
    forall i | 0 <= i < |rows|
      ensures Complete(rows[i])
      ensures d1.attendees[|db.attendees| + i]
              == Attendee(db.nextAttendeeId + i, rows[i].name.value, rows[i].phone.value, rows[i].email)
      ensures d1.tickets[|db.tickets| + i]
              == Ticket(db.nextTicketId + i, db.nextAttendeeId + i, eventId, ImportedTicketType,
                        Barcode(rows[i].name.value, eventId, db.nextAttendeeId + i), DefaultPassDesign)
    {
      if i < |front| {
        assert rows[i] == front[i];
      }
    }
  }

  /**
   * An import that reaches its end adds one attendee and one ticket per
   * row, with the ids, event, type, design and barcode of lines 71-80.
   */
  lemma {:induction false} ImportRowsContent(checkTypes: set<string>, db: Tables, eventId: nat, rows: seq<CsvRow>)
    requires ImportRows(checkTypes, db, eventId, rows).Imported?
    ensures ImportedContent(db, ImportRows(checkTypes, db, eventId, rows).db, eventId, rows)
    decreases |rows|
  {
    if rows == [] {
      assert ImportedContent(db, db, eventId, rows);
    } else {
      var front := rows[..|rows| - 1];
      var last := rows[|rows| - 1];
      assert rows == front + [last];
      ImportRowsContent(checkTypes, db, eventId, front);
      ImportedContentStep(checkTypes, db, ImportRows(checkTypes, db, eventId, front).db, eventId, front, last);
    }
  }

  /**
   * An import into valid tables whose CHECK admits `Normal` keeps them
   * valid: neither the CHECK nor the UNIQUE barcode refuses an imported
   * ticket.
   */
  lemma {:induction false} ImportRowsValid(checkTypes: set<string>, db: Tables, eventId: nat, rows: seq<CsvRow>)
    requires ValidTables(checkTypes, db) && ImportedTicketType in checkTypes
    requires ImportRows(checkTypes, db, eventId, rows).Imported?
    ensures ValidTables(checkTypes, ImportRows(checkTypes, db, eventId, rows).db)
    decreases |rows|
  {
    if rows != [] {
      var front := rows[..|rows| - 1];
      ImportRowsValid(checkTypes, db, eventId, front);
      ImportRowAccepted(checkTypes, ImportRows(checkTypes, db, eventId, front).db, eventId, rows[|rows| - 1]);
    }
  }

  /** Every row of an import that reaches its end has a name and a phone. */
  lemma {:induction false} ImportRowsComplete(checkTypes: set<string>, db: Tables, eventId: nat, rows: seq<CsvRow>)
    requires ImportRows(checkTypes, db, eventId, rows).Imported?
    ensures forall j :: 0 <= j < |rows| ==> Complete(rows[j])
    decreases |rows|
  {
    if rows != [] {
      var front := rows[..|rows| - 1];
      ImportRowsComplete(checkTypes, db, eventId, front);
      assert forall j :: 0 <= j < |front| ==> rows[j] == front[j];
    }
  }

  /**
   * An import into valid tables whose CHECK admits `Normal` stops exactly
   * at the first row lacking a name or a phone: the attendee INSERT
   * violates NOT NULL.
   */
  lemma {:induction false} ImportRowsRejected(checkTypes: set<string>, db: Tables, eventId: nat, rows: seq<CsvRow>)
    requires ValidTables(checkTypes, db) && ImportedTicketType in checkTypes
    ensures ImportRows(checkTypes, db, eventId, rows).Rejected? <==> exists j :: 0 <= j < |rows| && !Complete(rows[j])
    ensures ImportRows(checkTypes, db, eventId, rows).Rejected? ==>
      var k := ImportRows(checkTypes, db, eventId, rows).row;
      !Complete(rows[k]) && forall j :: 0 <= j < k ==> Complete(rows[j])
    decreases |rows|
  {
    if rows != [] {
      var front := rows[..|rows| - 1];
      var last := rows[|rows| - 1];
      assert forall j :: 0 <= j < |front| ==> rows[j] == front[j];
      ImportRowsRejected(checkTypes, db, eventId, front);
      var r := ImportRows(checkTypes, db, eventId, front);
      if r.Imported? {
        ImportRowsComplete(checkTypes, db, eventId, front);
        if Complete(last) {
          ImportRowsValid(checkTypes, db, eventId, front);
          ImportRowAccepted(checkTypes, r.db, eventId, last);
        }
      }
    }
  }

  // ---------------------------------------------------------------------
  // Saving the edited ticket types.

  /** Whether the attendee holding a ticket has this name and phone: the JOIN and WHERE of the lookup. */
  predicate AttendeeIs(attendees: seq<Attendee>, attendeeId: nat, name: string, phone: string) {
    exists i :: 0 <= i < |attendees| && attendees[i].attendeeId == attendeeId
                && attendees[i].name == name && attendees[i].phone == phone
  }

  /** The first result of the attendee-ticket join: the id of the first ticket, in table order, held by an attendee of that name and phone. */
  function FirstMatch(attendees: seq<Attendee>, tickets: seq<Ticket>, name: string, phone: string): (r: Option<nat>)
    ensures r.None? <==> forall i :: 0 <= i < |tickets| ==> !AttendeeIs(attendees, tickets[i].attendeeId, name, phone)
    ensures r.Some? ==> exists i :: 0 <= i < |tickets| && tickets[i].ticketId == r.value
                                    && AttendeeIs(attendees, tickets[i].attendeeId, name, phone)
                                    && forall j :: 0 <= j < i ==> !AttendeeIs(attendees, tickets[j].attendeeId, name, phone)
  {
    if tickets == [] then None
    else if AttendeeIs(attendees, tickets[0].attendeeId, name, phone) then Some(tickets[0].ticketId)
    else
      var r := FirstMatch(attendees, tickets[1..], name, phone);
      assert r.Some? ==> exists i :: 0 <= i < |tickets| && tickets[i].ticketId == r.value
                                     && AttendeeIs(attendees, tickets[i].attendeeId, name, phone)
                                     && forall j :: 0 <= j < i ==> !AttendeeIs(attendees, tickets[j].attendeeId, name, phone) by {
        if r.Some? {
          var i :| 0 <= i < |tickets| - 1 && tickets[1..][i].ticketId == r.value
                   && AttendeeIs(attendees, tickets[1..][i].attendeeId, name, phone)
                   && forall j :: 0 <= j < i ==> !AttendeeIs(attendees, tickets[1..][j].attendeeId, name, phone);
          assert tickets[i + 1] == tickets[1..][i];
          forall j | 0 <= j < i + 1
            ensures !AttendeeIs(attendees, tickets[j].attendeeId, name, phone)
          {
            if j > 0 { assert tickets[j] == tickets[1..][j - 1]; }
          }
        }
      }
      r
  }

  /** The ticket-type UPDATE: the ticket with that id gets the new type. */
  function SetTicketType(tickets: seq<Ticket>, ticketId: nat, ticketType: string): (r: seq<Ticket>)
    ensures |r| == |tickets|
  {
    seq(|tickets|, i requires 0 <= i < |tickets| =>
      if tickets[i].ticketId == ticketId then tickets[i].(ticketType := ticketType) else tickets[i])
  }

  /** The lookup of one tree row, with its cells as the tree returns them. */
  function RowMatch(attendees: seq<Attendee>, tickets: seq<Ticket>, row: TreeRow): Option<nat> {
    FirstMatch(attendees, tickets, TkCell(row.name), TkCell(row.phone))
  }

  /** A row whose UPDATE the CHECK constraint refuses: it finds a ticket and carries an inadmissible type. */
  predicate Refused(checkTypes: set<string>, attendees: seq<Attendee>, tickets: seq<Ticket>, row: TreeRow) {
    RowMatch(attendees, tickets, row).Some? && TkCell(row.ticketType) !in checkTypes
  }

  /**
   * Lines 93-103 for one tree row: the matched ticket takes the row's type;
   * a row that matches nothing changes nothing; `None` when the UPDATE
   * violates the CHECK constraint.
   */
  function SaveRow(checkTypes: set<string>, attendees: seq<Attendee>, tickets: seq<Ticket>, row: TreeRow)
    : Option<seq<Ticket>>
  {
    match RowMatch(attendees, tickets, row)
    case None => Some(tickets)
    case Some(ticketId) =>
      if TkCell(row.ticketType) in checkTypes then Some(SetTicketType(tickets, ticketId, TkCell(row.ticketType)))
      else None
  }

  /** Lines 92-103: the tree rows in order; `None` as soon as one UPDATE is refused. */
  function SaveRows(checkTypes: set<string>, attendees: seq<Attendee>, tickets: seq<Ticket>, rows: seq<TreeRow>)
    : Option<seq<Ticket>>
    decreases |rows|
  {
    if rows == [] then Some(tickets)
    else
      match SaveRow(checkTypes, attendees, tickets, rows[0])
      case None => None
      case Some(updated) => SaveRows(checkTypes, attendees, updated, rows[1..])
  }

  /** Two versions of the Tickets table that differ at most in ticket types. */
  predicate SameKeys(t1: seq<Ticket>, t2: seq<Ticket>) {
    |t1| == |t2| && forall i :: 0 <= i < |t1| ==> t2[i] == t1[i].(ticketType := t2[i].ticketType)
  }

  /** The lookup reads ids only, so it finds the same ticket whatever the ticket types. */
  lemma {:induction false} FirstMatchSameKeys(attendees: seq<Attendee>, t1: seq<Ticket>, t2: seq<Ticket>,
                                              name: string, phone: string)
    requires SameKeys(t1, t2)
    ensures FirstMatch(attendees, t1, name, phone) == FirstMatch(attendees, t2, name, phone)
  {
    if t1 != [] {
      assert t1[0].attendeeId == t2[0].attendeeId && t1[0].ticketId == t2[0].ticketId;
      assert SameKeys(t1[1..], t2[1..]) by {
        forall i | 0 <= i < |t1| - 1 ensures t2[1..][i] == t1[1..][i].(ticketType := t2[1..][i].ticketType) {
          assert t2[1..][i] == t2[i + 1] && t1[1..][i] == t1[i + 1];
        }
      }
      FirstMatchSameKeys(attendees, t1[1..], t2[1..], name, phone);
    }
  }

  /** Whether a row is refused does not depend on the ticket types. */
  lemma RefusedSameKeys(checkTypes: set<string>, attendees: seq<Attendee>, t1: seq<Ticket>, t2: seq<Ticket>,
                        row: TreeRow)
    requires SameKeys(t1, t2)
    ensures RowMatch(attendees, t1, row) == RowMatch(attendees, t2, row)
    ensures Refused(checkTypes, attendees, t1, row) <==> Refused(checkTypes, attendees, t2, row)
  {
    FirstMatchSameKeys(attendees, t1, t2, TkCell(row.name), TkCell(row.phone));
  }

  /** Setting a ticket type keeps the keys. */
  lemma SetTicketTypeSameKeys(t1: seq<Ticket>, t2: seq<Ticket>, ticketId: nat, ticketType: string)
    requires SameKeys(t1, t2)
    ensures SameKeys(t1, SetTicketType(t2, ticketId, ticketType))
  {
  }

  /** One step of a save, seen from row `k`. */
  lemma SaveRowsFrom(checkTypes: set<string>, attendees: seq<Attendee>, tickets: seq<Ticket>,
                     rows: seq<TreeRow>, k: nat)
    requires k < |rows|
    ensures SaveRows(checkTypes, attendees, tickets, rows[k..])
            == match SaveRow(checkTypes, attendees, tickets, rows[k])
               case None => None
               case Some(updated) => SaveRows(checkTypes, attendees, updated, rows[k + 1..])
  {
    assert rows[k..][1..] == rows[k + 1..];
  }

  /**
   * A save fails exactly when some tree row finds a ticket and carries a
   * type outside the CHECK set; the earlier rows' updates do not change
   * which ticket a row finds.
   */
  lemma {:induction false} SaveRowsFails(checkTypes: set<string>, attendees: seq<Attendee>, tickets: seq<Ticket>,
                                         rows: seq<TreeRow>)
    ensures SaveRows(checkTypes, attendees, tickets, rows).None?
            <==> exists k :: 0 <= k < |rows| && Refused(checkTypes, attendees, tickets, rows[k])
    decreases |rows|
  {
    if rows != [] {
      match SaveRow(checkTypes, attendees, tickets, rows[0])
      case None =>
        assert Refused(checkTypes, attendees, tickets, rows[0]);
      case Some(updated) =>
        assert SameKeys(tickets, updated);
        var rest := rows[1..];
        SaveRowsFails(checkTypes, attendees, updated, rest);
        assert !Refused(checkTypes, attendees, tickets, rows[0]);
        if SaveRows(checkTypes, attendees, updated, rest).None? {
          var k :| 0 <= k < |rest| && Refused(checkTypes, attendees, updated, rest[k]);
          assert rest[k] == rows[k + 1];
          RefusedSameKeys(checkTypes, attendees, tickets, updated, rows[k + 1]);
        }
        if exists k :: 0 <= k < |rows| && Refused(checkTypes, attendees, tickets, rows[k]) {
          var k :| 0 <= k < |rows| && Refused(checkTypes, attendees, tickets, rows[k]);
          assert k != 0;
          assert rest[k - 1] == rows[k];
          RefusedSameKeys(checkTypes, attendees, tickets, updated, rows[k]);
        }
    }
  }

  /** Row `k` is the last of `rows` whose lookup finds ticket `ticketId`. */
  predicate LastToFind(attendees: seq<Attendee>, tickets: seq<Ticket>, rows: seq<TreeRow>, k: int, ticketId: nat) {
    && 0 <= k < |rows| && RowMatch(attendees, tickets, rows[k]) == Some(ticketId)
    && forall j :: k < j < |rows| ==> RowMatch(attendees, tickets, rows[j]) != Some(ticketId)
  }

  /**
   * What a successful save does: only `ticket_type` changes; a ticket
   * that some row finds ends with the type of the last row that finds it;
   * a ticket no row finds is left as it was.
   */
  lemma {:induction false} SaveRowsEffect(checkTypes: set<string>, attendees: seq<Attendee>, tickets: seq<Ticket>,
                                          rows: seq<TreeRow>)
    requires SaveRows(checkTypes, attendees, tickets, rows).Some?
    ensures var r := SaveRows(checkTypes, attendees, tickets, rows).value;
      && SameKeys(tickets, r)
      && (forall i, k :: 0 <= i < |tickets| && LastToFind(attendees, tickets, rows, k, tickets[i].ticketId) ==>
            r[i].ticketType == TkCell(rows[k].ticketType))
      && (forall i :: 0 <= i < |tickets| && (forall k :: 0 <= k < |rows| ==> RowMatch(attendees, tickets, rows[k]) != Some(tickets[i].ticketId)) ==>
            r[i] == tickets[i])
    decreases |rows|
  {
    if rows != [] {
      var updated := SaveRow(checkTypes, attendees, tickets, rows[0]).value;
      var r := SaveRows(checkTypes, attendees, tickets, rows).value;
      assert SameKeys(tickets, updated);
      SaveRowsEffect(checkTypes, attendees, updated, rows[1..]);
      forall j | 0 <= j < |rows| - 1
        ensures RowMatch(attendees, updated, rows[1..][j]) == RowMatch(attendees, tickets, rows[j + 1])
      {
        FirstMatchSameKeys(attendees, tickets, updated, TkCell(rows[j + 1].name), TkCell(rows[j + 1].phone));
      }
      forall i, k | 0 <= i < |tickets| && LastToFind(attendees, tickets, rows, k, tickets[i].ticketId)
        ensures r[i].ticketType == TkCell(rows[k].ticketType)
      {
        if k > 0 {
          assert LastToFind(attendees, updated, rows[1..], k - 1, updated[i].ticketId);
        } else {
          assert forall j :: 0 <= j < |rows| - 1 ==> RowMatch(attendees, updated, rows[1..][j]) != Some(updated[i].ticketId);
        }
      }
      forall i | 0 <= i < |tickets| && (forall k :: 0 <= k < |rows| ==> RowMatch(attendees, tickets, rows[k]) != Some(tickets[i].ticketId))
        ensures r[i] == tickets[i]
      {
        assert forall j :: 0 <= j < |rows| - 1 ==> RowMatch(attendees, updated, rows[1..][j]) != Some(updated[i].ticketId);
      }
    }
  }

  /** Once the import stops at row `k`, the rows after it make no difference. */
  lemma {:induction false} ImportRowsStops(checkTypes: set<string>, db: Tables, eventId: nat, rows: seq<CsvRow>, k: nat)
    requires k < |rows| && ImportRows(checkTypes, db, eventId, rows[..k + 1]) == Rejected(k)
    ensures ImportRows(checkTypes, db, eventId, rows) == Rejected(k)
    decreases |rows|
  {
    if k + 1 < |rows| {
      var front := rows[..|rows| - 1];
      assert front[..k + 1] == rows[..k + 1];
      ImportRowsStops(checkTypes, db, eventId, front, k);
    } else {
      assert rows[..k + 1] == rows;
    }
  }

  /** A successful save changes ticket types only, and only to types the CHECK admits. */
  lemma {:induction false} SaveRowsAdmitted(checkTypes: set<string>, attendees: seq<Attendee>, tickets: seq<Ticket>,
                                            rows: seq<TreeRow>)
    requires SaveRows(checkTypes, attendees, tickets, rows).Some?
    ensures var r := SaveRows(checkTypes, attendees, tickets, rows).value;
      |r| == |tickets| &&
      forall i :: 0 <= i < |tickets| ==> r[i].ticketType == tickets[i].ticketType || r[i].ticketType in checkTypes
    decreases |rows|
  {
    if rows != [] {
      var updated := SaveRow(checkTypes, attendees, tickets, rows[0]).value;
      SaveRowsAdmitted(checkTypes, attendees, updated, rows[1..]);
    }
  }

  /** A successful save keeps valid tables valid. */
  lemma SaveRowsValid(checkTypes: set<string>, db: Tables, rows: seq<TreeRow>)
    requires ValidTables(checkTypes, db)
    requires SaveRows(checkTypes, db.attendees, db.tickets, rows).Some?
    ensures ValidTables(checkTypes, db.(tickets := SaveRows(checkTypes, db.attendees, db.tickets, rows).value))
  {
    var r := SaveRows(checkTypes, db.attendees, db.tickets, rows).value;
    var db1 := db.(tickets := r);
    SaveRowsEffect(checkTypes, db.attendees, db.tickets, rows);
    SaveRowsAdmitted(checkTypes, db.attendees, db.tickets, rows);
    forall i | 0 <= i < |r|
      ensures TicketValid(checkTypes, db1, r[i])
    {
      assert TicketValid(checkTypes, db, db.tickets[i]);
    }
  }

  // ---------------------------------------------------------------------
  // The WVIP / VVIP mismatch.

  /**
   * As written: the editor's first choice, `VVIP`, is not in the schema's
   * CHECK set, so a save in which a row that finds a ticket holds it
   * fails as a whole.
   */
  lemma SchemaRefusesEditorChoice(attendees: seq<Attendee>, tickets: seq<Ticket>, rows: seq<TreeRow>, k: nat)
    requires k < |rows| && rows[k].ticketType == EditorTicketTypes[0]
    requires RowMatch(attendees, tickets, rows[k]).Some?
    ensures EditorTicketTypes[0] !in SchemaTicketTypes
    ensures SaveRows(SchemaTicketTypes, attendees, tickets, rows).None?
  {
    assert !IsDigit('V');
    assert Refused(SchemaTicketTypes, attendees, tickets, rows[k]);
    SaveRowsFails(SchemaTicketTypes, attendees, tickets, rows);
  }

  /**
   * Corrected: the CHECK set admits every choice the editor offers,
   * including the import's `Normal`, so a save of rows whose types came
   * from the import or the editor never fails.
   */
  lemma IntendedAdmitsEditorChoices(attendees: seq<Attendee>, tickets: seq<Ticket>, rows: seq<TreeRow>)
    requires forall k :: 0 <= k < |rows| ==> rows[k].ticketType in EditorTicketTypes
    ensures ImportedTicketType in EditorTicketTypes
    ensures forall c :: c in EditorTicketTypes ==> c in IntendedTicketTypes
    ensures SaveRows(IntendedTicketTypes, attendees, tickets, rows).Some?
  {
    assert !IsDigit('V') && !IsDigit('N') && !IsDigit('S');
    forall k | 0 <= k < |rows|
      ensures !Refused(IntendedTicketTypes, attendees, tickets, rows[k])
    {
      assert TkCell(rows[k].ticketType) == rows[k].ticketType;
    }
    SaveRowsFails(IntendedTicketTypes, attendees, tickets, rows);
  }

  // ---------------------------------------------------------------------
  // Phones with a leading zero.

  /** A digit string of two or more digits that starts with `0`, such as a local phone number. */
  predicate LeadingZeroDigits(s: string) {
    |s| > 1 && AllDigits(s) && s[0] == '0'
  }

  /** Whatever a cell holds, it never comes back from the tree as a digit string with a leading zero. */
  lemma TkCellNeverLeadingZero(s: string, p: string)
    requires LeadingZeroDigits(p)
    ensures TkCell(s) != p
  {
  }

  /**
   * As written: a ticket whose attendee's phone has a leading zero is
   * found by no tree row, whatever the row holds, so a save never updates
   * it.
   */
  lemma LeadingZeroPhoneSkipped(checkTypes: set<string>, db: Tables, row: TreeRow, a: nat, i: nat)
    requires ValidTables(checkTypes, db)
    requires a < |db.attendees| && LeadingZeroDigits(db.attendees[a].phone)
    requires i < |db.tickets| && db.tickets[i].attendeeId == db.attendees[a].attendeeId
    ensures RowMatch(db.attendees, db.tickets, row) != Some(db.tickets[i].ticketId)
  {
    var r := RowMatch(db.attendees, db.tickets, row);
    if r == Some(db.tickets[i].ticketId) {
      var i' :| 0 <= i' < |db.tickets| && db.tickets[i'].ticketId == r.value
                && AttendeeIs(db.attendees, db.tickets[i'].attendeeId, TkCell(row.name), TkCell(row.phone));
      assert i' == i;
      var b :| 0 <= b < |db.attendees| && db.attendees[b].attendeeId == db.tickets[i].attendeeId
               && db.attendees[b].name == TkCell(row.name) && db.attendees[b].phone == TkCell(row.phone);
      assert b == a;
      TkCellNeverLeadingZero(row.phone, db.attendees[a].phone);
      assert false;
    }
  }

  /** As written: a successful save leaves the ticket of an attendee whose phone has a leading zero as it was. */
  lemma LeadingZeroPhoneTicketKept(checkTypes: set<string>, db: Tables, rows: seq<TreeRow>, a: nat, i: nat)
    requires ValidTables(checkTypes, db)
    requires a < |db.attendees| && LeadingZeroDigits(db.attendees[a].phone)
    requires i < |db.tickets| && db.tickets[i].attendeeId == db.attendees[a].attendeeId
    requires SaveRows(checkTypes, db.attendees, db.tickets, rows).Some?
    ensures |SaveRows(checkTypes, db.attendees, db.tickets, rows).value| == |db.tickets|
    ensures SaveRows(checkTypes, db.attendees, db.tickets, rows).value[i] == db.tickets[i]
  {
    forall k | 0 <= k < |rows|
      ensures RowMatch(db.attendees, db.tickets, rows[k]) != Some(db.tickets[i].ticketId)
    {
      LeadingZeroPhoneSkipped(checkTypes, db, rows[k], a, i);
    }
    SaveRowsEffect(checkTypes, db.attendees, db.tickets, rows);
  }

  /**
   * As written: the row's phone comes back without its leading zero, and
   * the lookup then finds a ticket of another attendee whose phone is
   * that shorter number, whose type the save then sets.
   */
  lemma LeadingZeroPhoneFindsStripped(attendees: seq<Attendee>, tickets: seq<Ticket>, row: TreeRow, b: nat, i: nat)
    requires LeadingZeroDigits(row.phone)
    requires b < |attendees| && i < |tickets| && tickets[i].attendeeId == attendees[b].attendeeId
    requires attendees[b].name == TkCell(row.name) && attendees[b].phone == NatToString(DigitsValue(row.phone))
    ensures TkCell(row.phone) == NatToString(DigitsValue(row.phone)) != row.phone
    ensures RowMatch(attendees, tickets, row).Some?
    ensures exists j :: 0 <= j < |tickets| && tickets[j].ticketId == RowMatch(attendees, tickets, row).value
                        && AttendeeIs(attendees, tickets[j].attendeeId, TkCell(row.name), NatToString(DigitsValue(row.phone)))
  {
    TkCellAlters(row.phone);
    assert AttendeeIs(attendees, tickets[i].attendeeId, TkCell(row.name), TkCell(row.phone));
  }

  /**
   * Corrected: the lookup the save evidently intends, on the name and
   * phone exactly as the import stored and showed them.
   */
  function TextRowMatch(attendees: seq<Attendee>, tickets: seq<Ticket>, row: TreeRow): (r: Option<nat>)
    ensures r.None? <==> forall i :: 0 <= i < |tickets| ==> !AttendeeIs(attendees, tickets[i].attendeeId, row.name, row.phone)
  {
    FirstMatch(attendees, tickets, row.name, row.phone)
  }

  /**
   * Corrected: after an import, the text lookup of every imported tree
   * line finds a ticket held by an attendee with that line's name and
   * phone, leading zeros or not.
   */
  lemma ImportedRowsFound(checkTypes: set<string>, db: Tables, eventId: nat, rows: seq<CsvRow>, k: nat)
    requires ImportRows(checkTypes, db, eventId, rows).Imported? && k < |rows|
    ensures var d := ImportRows(checkTypes, db, eventId, rows).db;
      var line := ImportedRows(rows)[k];
      var r := TextRowMatch(d.attendees, d.tickets, line);
      && r.Some?
      && exists j :: 0 <= j < |d.tickets| && d.tickets[j].ticketId == r.value
                     && AttendeeIs(d.attendees, d.tickets[j].attendeeId, line.name, line.phone)
  {
    ImportRowsContent(checkTypes, db, eventId, rows);
    ImportedContentFound(db, ImportRows(checkTypes, db, eventId, rows).db, eventId, rows, k);
  }

  /** Row `k` of an import is held by the attendee and the ticket the import appended for it. */
  lemma ImportedContentFound(db: Tables, d: Tables, eventId: nat, rows: seq<CsvRow>, k: nat)
    requires ImportedContent(db, d, eventId, rows) && k < |rows|
    ensures var line := ImportedRows(rows)[k];
      TextRowMatch(d.attendees, d.tickets, line).Some?
  {
    var line := ImportedRows(rows)[k];
    assert Complete(rows[k]);
    assert line.name == rows[k].name.value && line.phone == rows[k].phone.value;
    var ticket := d.tickets[|db.tickets| + k];
    var attendee := d.attendees[|db.attendees| + k];
    assert attendee.attendeeId == ticket.attendeeId && attendee.name == line.name && attendee.phone == line.phone;
    assert AttendeeIs(d.attendees, ticket.attendeeId, line.name, line.phone);
  }

  /**
   * Corrected: when no attendee already on record and no earlier row of
   * the import has row `k`'s name and phone, the text lookup of row `k`'s
   * tree line finds the very ticket the import made for it.
   */
  lemma ImportedRowOwnTicket(checkTypes: set<string>, db: Tables, eventId: nat, rows: seq<CsvRow>, k: nat)
    requires ValidTables(checkTypes, db)
    requires ImportRows(checkTypes, db, eventId, rows).Imported? && k < |rows|
    requires forall a :: 0 <= a < |db.attendees| ==>
               Some(db.attendees[a].name) != rows[k].name || Some(db.attendees[a].phone) != rows[k].phone
    requires forall j :: 0 <= j < k ==> rows[j].name != rows[k].name || rows[j].phone != rows[k].phone
    ensures var d := ImportRows(checkTypes, db, eventId, rows).db;
      TextRowMatch(d.attendees, d.tickets, ImportedRows(rows)[k]) == Some(db.nextTicketId + k)
  {
    ImportRowsContent(checkTypes, db, eventId, rows);
    ImportedContentOwnTicket(checkTypes, db, ImportRows(checkTypes, db, eventId, rows).db, eventId, rows, k);
  }

  /** Row `k`'s ticket is the first, in table order, held by an attendee with its name and phone. */
  lemma ImportedContentOwnTicket(checkTypes: set<string>, db: Tables, d: Tables, eventId: nat, rows: seq<CsvRow>, k: nat)
    requires ValidTables(checkTypes, db)
    requires ImportedContent(db, d, eventId, rows) && k < |rows|
    requires forall a :: 0 <= a < |db.attendees| ==>
               Some(db.attendees[a].name) != rows[k].name || Some(db.attendees[a].phone) != rows[k].phone
    requires forall j :: 0 <= j < k ==> rows[j].name != rows[k].name || rows[j].phone != rows[k].phone
    ensures TextRowMatch(d.attendees, d.tickets, ImportedRows(rows)[k]) == Some(db.nextTicketId + k)
  {
    var line := ImportedRows(rows)[k];
    var own := |db.tickets| + k;
    assert Complete(rows[k]);
    assert line.name == rows[k].name.value && line.phone == rows[k].phone.value;
    assert AttendeeIs(d.attendees, d.tickets[own].attendeeId, line.name, line.phone) by {
      assert d.attendees[|db.attendees| + k].attendeeId == d.tickets[own].attendeeId;
    }
    forall j | 0 <= j < own
      ensures !AttendeeIs(d.attendees, d.tickets[j].attendeeId, line.name, line.phone)
    {
      forall b | 0 <= b < |d.attendees| && d.attendees[b].attendeeId == d.tickets[j].attendeeId
        ensures d.attendees[b].name != line.name || d.attendees[b].phone != line.phone
      {
        EarlierHolderDiffers(checkTypes, db, d, eventId, rows, k, j, b);
      }
    }
    var r := TextRowMatch(d.attendees, d.tickets, line);
    var i :| 0 <= i < |d.tickets| && d.tickets[i].ticketId == r.value
             && AttendeeIs(d.attendees, d.tickets[i].attendeeId, line.name, line.phone)
             && forall j :: 0 <= j < i ==> !AttendeeIs(d.attendees, d.tickets[j].attendeeId, line.name, line.phone);
    assert i == own;
  }

  /** An attendee holding a ticket before row `k`'s own differs from row `k` in name or phone. */
  lemma EarlierHolderDiffers(checkTypes: set<string>, db: Tables, d: Tables, eventId: nat, rows: seq<CsvRow>,
                             k: nat, j: nat, b: nat)
    requires ValidTables(checkTypes, db)
    requires ImportedContent(db, d, eventId, rows) && k < |rows|
    requires forall a :: 0 <= a < |db.attendees| ==>
               Some(db.attendees[a].name) != rows[k].name || Some(db.attendees[a].phone) != rows[k].phone
    requires forall j :: 0 <= j < k ==> rows[j].name != rows[k].name || rows[j].phone != rows[k].phone
    requires j < |db.tickets| + k && b < |d.attendees| && d.attendees[b].attendeeId == d.tickets[j].attendeeId
    ensures Some(d.attendees[b].name) != rows[k].name || Some(d.attendees[b].phone) != rows[k].phone
  {
    if j < |db.tickets| {
      assert d.tickets[j] == d.tickets[..|db.tickets|][j];
      assert TicketValid(checkTypes, db, db.tickets[j]);
    } else {
      var m := j - |db.tickets|;
      assert Complete(rows[m]);
      assert d.tickets[|db.tickets| + m].attendeeId == db.nextAttendeeId + m;
    }
    if b < |db.attendees| {
      assert d.attendees[b] == d.attendees[..|db.attendees|][b];
    } else {
      var n := b - |db.attendees|;
      assert Complete(rows[n]);
      assert d.attendees[|db.attendees| + n].attendeeId == db.nextAttendeeId + n;
    }
  }

  // ---------------------------------------------------------------------
  // The database and the tree, as the window holds them.

  /** How an import ends. */
  datatype LoadOutcome =
    | Cancelled                                    // no file was chosen
    | NoEventSelected                              // the event box is empty
    | HeaderUnreadable(eventId: nat)               // an empty file has no header row to test
    | ColumnMissing(eventId: nat, field: string)   // a required column is absent
    | RowRefused(eventId: nat, row: nat)           // the database refused this row's INSERT
    | CsvImported(eventId: nat)

  /** How a save ends. */
  datatype SaveOutcome = Saved | CheckFailed(row: nat)

  /**
   * The three tables of the ticket database, their autoincrement
   * counters, and the rows of the window's tree. `checkTypes` is the set
   * the `ticket_type` CHECK admits.
   */
  class TicketDatabase {
    const checkTypes: set<string>
    var events: seq<Event>
    var attendees: seq<Attendee>
    var tickets: seq<Ticket>
    var nextEventId: nat
    var nextAttendeeId: nat
    var nextTicketId: nat
    var tree: seq<TreeRow>

    function Contents(): Tables
      reads this
    {
      Tables(events, attendees, tickets, nextEventId, nextAttendeeId, nextTicketId)
    }

    /** The constraints hold, and every type in the tree came from the import or the editor. */
    ghost predicate Valid()
      reads this
    {
      && ImportedTicketType in checkTypes
      && ValidTables(checkTypes, Contents())
      && EditorTypes(tree)
    }

    /** A fresh database under a schema whose CHECK admits `Normal`, and an empty tree. */
    constructor (checkTypes: set<string>)
      requires ImportedTicketType in checkTypes
      ensures this.checkTypes == checkTypes
      ensures Contents() == EmptyTables && tree == []
      ensures Valid()
    {
      this.checkTypes := checkTypes;
      events, attendees, tickets := [], [], [];
      nextEventId, nextAttendeeId, nextTicketId := 1, 1, 1;
      tree := [];
    }

    /**
     * Lines 50-58: reuses the event with the selected name, or inserts one
     * and commits it.
     */
    method SelectEvent(name: string) returns (eventId: nat)
      requires Valid()
      modifies this
      ensures (Contents(), eventId) == GetOrCreateEvent(old(Contents()), name)
      ensures tree == old(tree)
      ensures Valid()
    {
      GetOrCreateEventValid(checkTypes, Contents(), name);
      var found := FindEvent(events, name);
      if found.Some? {
        eventId := found.value;
      } else {
        FindEventAppended(events, Event(nextEventId, name));
        events := events + [Event(nextEventId, name)];
        nextEventId := nextEventId + 1;
        var again := FindEvent(events, name);
        eventId := again.value;
      }
    }

    /**
     * Lines 70-81 for one row: inserts the attendee and its ticket and
     * shows the row in the tree; `false` when the database refuses the row.
     * A refused statement is undone on its own: when the attendee INSERT
     * violates NOT NULL nothing has changed, and when the ticket INSERT is
     * refused the attendee stays inserted, with its id consumed, until the
     * transaction is rolled back.
     */
    method InsertRow(eventId: nat, row: CsvRow) returns (inserted: bool)
      modifies this
      ensures inserted <==> ImportRow(checkTypes, old(Contents()), eventId, row).Some?
      ensures inserted ==> Contents() == ImportRow(checkTypes, old(Contents()), eventId, row).value
      ensures inserted ==> tree == old(tree) + [ImportedRow(row)]
      ensures !inserted ==> tree == old(tree)
      ensures !inserted && !Complete(row) ==> Contents() == old(Contents())
      ensures !inserted && Complete(row) ==>
        Contents() == old(Contents()).(
          attendees := old(attendees) + [Attendee(old(nextAttendeeId), row.name.value, row.phone.value, row.email)],
          nextAttendeeId := old(nextAttendeeId) + 1)
      ensures events == old(events) && nextEventId == old(nextEventId)
    {
      if row.name.None? || row.phone.None? {
        return false;
      }
      var attendeeId := nextAttendeeId;
      attendees := attendees + [Attendee(attendeeId, row.name.value, row.phone.value, row.email)];
      nextAttendeeId := nextAttendeeId + 1;
      var barcode := Barcode(row.name.value, eventId, attendeeId);
      if ImportedTicketType !in checkTypes || BarcodeTaken(tickets, barcode) {
        return false;
      }
      tickets := tickets + [Ticket(nextTicketId, attendeeId, eventId, ImportedTicketType, barcode, DefaultPassDesign)];
      nextTicketId := nextTicketId + 1;
      tree := tree + [TreeRow(row.name.value, row.phone.value, Shown(row.email), ImportedTicketType)];
      return true;
    }

    /**
     * The discarding of an uncommitted transaction when its connection is
     * finalised: the tables return to `db`, the state last committed.
     */
    method Restore(db: Tables)
      modifies this
      ensures Contents() == db && tree == old(tree)
    {
      events, attendees, tickets := db.events, db.attendees, db.tickets;
      nextEventId, nextAttendeeId, nextTicketId := db.nextEventId, db.nextAttendeeId, db.nextTicketId;
    }

    /**
     * Lines 70-81: inserts the rows in order and commits them, or, at the
     * first row the database refuses, rolls the attendees and tickets back
     * to where they stood; the tree keeps the rows shown before that one.
     */
    method InsertRows(eventId: nat, rows: seq<CsvRow>) returns (refused: Option<nat>)
      requires Valid()
      modifies this
      ensures Valid()
      ensures match ImportRows(checkTypes, old(Contents()), eventId, rows)
        case Imported(d) => refused == None && Contents() == d && tree == old(tree) + ImportedRows(rows)
        case Rejected(k) =>
          refused == Some(k) && Contents() == old(Contents()) && tree == old(tree) + ImportedRows(rows[..k])
    {
      var committed := Contents();
      ghost var tree0 := tree;
      assert EditorTicketTypes[2] == ImportedTicketType;
      var k := 0;
      while k < |rows|
        invariant 0 <= k <= |rows|
        invariant ImportRows(checkTypes, committed, eventId, rows[..k]) == Imported(Contents())
        invariant tree == tree0 + ImportedRows(rows[..k])
      {
        var prefix := rows[..k + 1];
        assert prefix[..k] == rows[..k];
        var inserted := InsertRow(eventId, rows[k]);
        if !inserted {
          Restore(committed);
          ImportRowsStops(checkTypes, committed, eventId, rows, k);
          ImportedRowsEditorTypes(tree0, rows[..k]);
          return Some(k);
        }
        assert ImportedRows(prefix) == ImportedRows(rows[..k]) + [ImportedRow(rows[k])];
        k := k + 1;
      }
      assert rows[..k] == rows;
      ImportRowsValid(checkTypes, committed, eventId, rows);
      ImportedRowsEditorTypes(tree0, rows);
      return None;
    }

    /**
     * Lines 37-85: the import of one CSV file into the selected event.
     * An event inserted for it stays committed whatever follows; a missing
     * column stops before any row; a row the database refuses rolls the
     * attendees and tickets back, while the tree keeps the rows shown
     * before it.
     */
    method LoadCsv(file: Option<CsvFile>, selectedEvent: string) returns (outcome: LoadOutcome)
      requires Valid()
      modifies this
      ensures Valid()
      ensures file.None? ==> outcome == Cancelled && Contents() == old(Contents()) && tree == old(tree)
      ensures file.Some? && selectedEvent == "" ==>
        outcome == NoEventSelected && Contents() == old(Contents()) && tree == old(tree)
      ensures file.Some? && selectedEvent != "" ==>
        var (withEvent, eventId) := GetOrCreateEvent(old(Contents()), selectedEvent);
        var csv := file.value;
        if csv.fieldnames.None? then
          outcome == HeaderUnreadable(eventId) && Contents() == withEvent && tree == old(tree)
        else if MissingColumn(csv.fieldnames.value).Some? then
          outcome == ColumnMissing(eventId, MissingColumn(csv.fieldnames.value).value)
          && Contents() == withEvent && tree == old(tree)
        else
          match ImportRows(checkTypes, withEvent, eventId, csv.rows)
          case Imported(d) =>
            outcome == CsvImported(eventId) && Contents() == d && tree == old(tree) + ImportedRows(csv.rows)
          case Rejected(k) =>
            outcome == RowRefused(eventId, k) && Contents() == withEvent
            && tree == old(tree) + ImportedRows(csv.rows[..k])
    {
      if file.None? {
        return Cancelled;
      }
      if selectedEvent == "" {
        return NoEventSelected;
      }
      var eventId := SelectEvent(selectedEvent);
      var csv := file.value;
      if csv.fieldnames.None? {
        return HeaderUnreadable(eventId);
      }
      var missing := FindMissingColumn(csv.fieldnames.value);
      if missing.Some? {
        return ColumnMissing(eventId, missing.value);
      }
      var refused := InsertRows(eventId, csv.rows);
      if refused.Some? {
        return RowRefused(eventId, refused.value);
      }
      return CsvImported(eventId);
    }

    /**
     * Lines 92-103: the UPDATEs of a save, applied to a working copy of the
     * tickets; `failed` is the first row whose UPDATE the CHECK refuses.
     */
    method UpdatedTickets() returns (updated: seq<Ticket>, failed: Option<nat>)
      ensures failed.None? <==> SaveRows(checkTypes, attendees, tickets, tree).Some?
      ensures failed.None? ==> updated == SaveRows(checkTypes, attendees, tickets, tree).value
      ensures failed.Some? ==>
        && failed.value < |tree|
        && Refused(checkTypes, attendees, tickets, tree[failed.value])
        && forall j :: 0 <= j < failed.value ==> !Refused(checkTypes, attendees, tickets, tree[j])
    {
      updated := tickets;
      var k := 0;
      while k < |tree|
        invariant 0 <= k <= |tree|
        invariant SameKeys(tickets, updated)
        invariant SaveRows(checkTypes, attendees, updated, tree[k..]) == SaveRows(checkTypes, attendees, tickets, tree)
        invariant forall j :: 0 <= j < k ==> !Refused(checkTypes, attendees, tickets, tree[j])
      {
        var row := tree[k];
        SaveRowsFrom(checkTypes, attendees, updated, tree, k);
        RefusedSameKeys(checkTypes, attendees, tickets, updated, row);
        var found := FirstMatch(attendees, updated, TkCell(row.name), TkCell(row.phone));
        var ticketType := TkCell(row.ticketType);
        if found.Some? {
          if ticketType !in checkTypes {
            return updated, Some(k);
          }
          SetTicketTypeSameKeys(tickets, updated, found.value, ticketType);
          updated := SetTicketType(updated, found.value, ticketType);
        }
        k := k + 1;
      }
      assert tree[k..] == [];
      failed := None;
    }

    /**
     * Lines 89-106: each tree row, read back through the tree, sets the
     * type of the first ticket its name and phone find. A type the CHECK
     * refuses raises before the commit, so nothing of the save is kept.
     */
    method SaveChanges() returns (outcome: SaveOutcome)
      requires Valid()
      modifies this
      ensures Valid()
      ensures tree == old(tree)
      ensures match SaveRows(checkTypes, attendees, old(tickets), tree)
        case Some(r) => outcome == Saved && Contents() == old(Contents()).(tickets := r)
        case None => outcome.CheckFailed? && Contents() == old(Contents())
      ensures outcome.CheckFailed? ==>
        && outcome.row < |tree|
        && Refused(checkTypes, attendees, old(tickets), tree[outcome.row])
        && forall j :: 0 <= j < outcome.row ==> !Refused(checkTypes, attendees, old(tickets), tree[j])
      ensures checkTypes == IntendedTicketTypes ==> outcome == Saved
    {
      if checkTypes == IntendedTicketTypes {
        IntendedAdmitsEditorChoices(attendees, tickets, tree);
      }
      var updated, failed := UpdatedTickets();
      if failed.Some? {
        return CheckFailed(failed.value);
      }
      SaveRowsValid(checkTypes, Contents(), tree);
      tickets := updated;
      return Saved;
    }

    /**
     * Lines 116-127: the editor replaces row `i`'s type with the entry
     * picked from its list; the database is untouched until a save.
     */
    method SelectTicketType(i: nat, choice: nat)
      requires Valid()
      requires i < |tree| && choice < |EditorTicketTypes|
      modifies this
      ensures Valid()
      ensures tree == old(tree)[i := old(tree)[i].(ticketType := EditorTicketTypes[choice])]
      ensures Contents() == old(Contents())
    {
      tree := tree[i := tree[i].(ticketType := EditorTicketTypes[choice])];
    }
  }
}
