/**
 Turning fetched calendar events into table records (kalendarz.py, the loop
 in `main`): missing fields get their defaults, and each event gets one
 status label from an ordered chain of tests, the API status first and the
 colour second.
 */
module Events {
  import opened Frames

  datatype Option<T> = None | Some(value: T) {
    function GetOr(default: T): T {
      if Some? then value else default
    }
  }

  /** The `start` object of an event: a timed event has `dateTime`, an all-day one `date`. */
  datatype EventTime = EventTime(dateTime: Option<string>, date: Option<string>)

  /** The fields of a Google Calendar event that the script reads; each may be absent. */
  datatype Event = Event(start: Option<EventTime>, colorId: Option<string>, status: Option<string>, summary: Option<string>)

  const CANCELLED_STATUS := "cancelled"
  const DEFAULT_STATUS := "confirmed"
  const DEFAULT_COLOR := "Brak"
  const DEFAULT_TITLE := "Brak tytułu"

  const CANCELLED := "Odwołane"
  const CANCELLED_EARLY := "Odwołane wcześniej"
  const CANCELLED_LATE := "Odwołane za późno"
  const HELD := "Odbyło się normalnie"
  const UNKNOWN := "Nieznany"

  /** Colour ids (lavender, sage, peacock, blueberry, basil) of events that took place. */
  const HELD_COLORS := ["1", "2", "7", "9", "10"]

  /**
   The status label of an event. A cancelled event is cancelled whatever its
   colour; otherwise red (11) means cancelled in advance, tangerine (6)
   cancelled too late, the held colours mean it took place, and every other
   colour, including the default, is unknown. Exactly one label applies.
   */
  function StatusLabel(status: string, colorId: string): (marked: string)
    ensures marked == CANCELLED <==> status == CANCELLED_STATUS
    ensures marked == CANCELLED_EARLY <==> status != CANCELLED_STATUS && colorId == "11"
    ensures marked == CANCELLED_LATE <==> status != CANCELLED_STATUS && colorId == "6"
    ensures marked == HELD <==> status != CANCELLED_STATUS && colorId in HELD_COLORS
    ensures marked == UNKNOWN <==>
              status != CANCELLED_STATUS && colorId != "11" && colorId != "6" && colorId !in HELD_COLORS
  {
    if status == CANCELLED_STATUS then CANCELLED
    else if colorId == "11" then CANCELLED_EARLY
    else if colorId == "6" then CANCELLED_LATE
    else if colorId in HELD_COLORS then HELD
    else UNKNOWN
  }

  /** `event['start'].get('dateTime', event['start'].get('date'))`: None when both are absent. */
  function StartCell(t: EventTime): (c: Cell)
    ensures t.dateTime.Some? ==> c == Text(t.dateTime.value)
    ensures t.dateTime.None? && t.date.Some? ==> c == Text(t.date.value)
    ensures t.dateTime.None? && t.date.None? ==> c == Null
  {
    match t.dateTime
    case Some(s) => Text(s)
    case None => if t.date.Some? then Text(t.date.value) else Null
  }

  /** The columns of a record, in the order of the dict literal. */
  const RECORD_COLUMNS := [Title, Start, ColorId, ApiStatus, MarkedStatus]

  /** `event.get('colorId', 'Brak')`. */
  function ColorOf(e: Event): (c: string)
    ensures e.colorId.Some? ==> c == e.colorId.value
    ensures e.colorId.None? ==> c == DEFAULT_COLOR
  {
    e.colorId.GetOr(DEFAULT_COLOR)
  }

  /** `event.get('status', 'confirmed')`. */
  function StatusOf(e: Event): (s: string)
    ensures e.status.Some? ==> s == e.status.value
    ensures e.status.None? ==> s == DEFAULT_STATUS
  {
    e.status.GetOr(DEFAULT_STATUS)
  }

  /**
   The record appended for one event. The event must have a `start` object:
   indexing a missing one raises KeyError (see `BuildRecords`).
   */
  function Record(e: Event): (row: Row)
    requires e.start.Some?
    ensures row.Keys == Names(RECORD_COLUMNS)
    ensures row[Title] == Text(if e.summary.Some? then e.summary.value else DEFAULT_TITLE)
    ensures row[Start] == StartCell(e.start.value)
    ensures row[ColorId] == Text(if e.colorId.Some? then e.colorId.value else DEFAULT_COLOR)
    ensures row[ApiStatus] == Text(if e.status.Some? then e.status.value else DEFAULT_STATUS)
    ensures row[MarkedStatus] == Text(StatusLabel(StatusOf(e), ColorOf(e)))
  {
    map[
      Title := Text(e.summary.GetOr(DEFAULT_TITLE)),
      Start := StartCell(e.start.value),
      ColorId := Text(ColorOf(e)),
      ApiStatus := Text(StatusOf(e)),
      MarkedStatus := Text(StatusLabel(StatusOf(e), ColorOf(e)))
    ]
  }

  /** The outcome of the loop: every record, or the first event without a `start` object. */
  datatype Built = Records(rows: seq<Row>) | MissingStart(index: nat)

  /**
   The loop over the fetched events: one record per event, in event order.
   An event without `start` raises KeyError, which ends the loop (and the
   run: `main`'s handler only reports it).
   */
  method BuildRecords(events: seq<Event>) returns (result: Built)
    ensures result.Records? <==> forall i :: 0 <= i < |events| ==> events[i].start.Some?
    ensures result.Records? ==>
              && |result.rows| == |events|
              && forall i :: 0 <= i < |events| ==> events[i].start.Some? && result.rows[i] == Record(events[i])
    ensures result.MissingStart? ==>
              && result.index < |events| && events[result.index].start.None?
              && forall i :: 0 <= i < result.index ==> events[i].start.Some?
  {
    var data: seq<Row> := [];
    var i := 0;
    while i < |events|
      invariant 0 <= i <= |events|
      invariant |data| == i
      invariant forall j :: 0 <= j < i ==> events[j].start.Some? && data[j] == Record(events[j])
    {
      var event := events[i];
      if event.start.None? {
        return MissingStart(i);
      }
      var start := StartCell(event.start.value);
      var colorId := event.colorId.GetOr(DEFAULT_COLOR);
      var status := event.status.GetOr(DEFAULT_STATUS);
      var eventStatus: string;
      if status == CANCELLED_STATUS {
        eventStatus := CANCELLED;
      } else if colorId == "11" {
        eventStatus := CANCELLED_EARLY;
      } else if colorId == "6" {
        eventStatus := CANCELLED_LATE;
      } else if colorId in HELD_COLORS {
        eventStatus := HELD;
      } else {
        eventStatus := UNKNOWN;
      }
      data := data + [map[
        Title := Text(event.summary.GetOr(DEFAULT_TITLE)),
        Start := start,
        ColorId := Text(colorId),
        ApiStatus := Text(status),
        MarkedStatus := Text(eventStatus)
      ]];
      i := i + 1;
    }
    return Records(data);
  }
}
