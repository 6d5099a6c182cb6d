/**
 * The substitution data the timetable service sends for one day, as far as
 * the client reads it: raw, still HTML-encoded texts.
 */
module Payloads {
  import opened Wrappers

  /** One message of the day, as `messageData.messages` lists it. */
  datatype RawMessage = RawMessage(subject: string, body: string)

  /** One table row; `data` holds its cells in column order. */
  datatype Row = Row(data: seq<string>)

  /** `date` is the day as the number `YYYYMMDD`; `affectedElements` is the
      list stored under the key `"1"`; `nextDate` is `None` where the
      service sends `null`. */
  datatype Payload = Payload(
    date: int,
    lastUpdate: string,
    affectedElements: seq<string>,
    messages: seq<RawMessage>,
    rows: seq<Row>,
    nextDate: Option<int>)
}
