/**
 * Turning one day's payload into a plan: decoding texts, reading dates,
 * the room and teacher fields with their substitution markup, group lists,
 * rows of eight cells, removal of repeated entries, and the assembly of the
 * plan. HTML-entity decoding and `Number.parseInt` are parameters.
 */
module Normalizer {
  import opened Wrappers
  import opened Text
  import opened Sequences
  import opened Substitutions
  import opened Payloads
  import Groups
  import Subjects
  import Rooms
  import opened Entries
  import opened Plans
  import WebUntis

  /** `he.decode` (`text`) and `Number.parseInt` (`number`, `None` for `NaN`). */
  datatype Decoders = Decoders(text: string -> string, number: string -> Option<int>)

  /** A decoder that leaves texts of digits alone, as an HTML-entity decoder does. */
  ghost predicate KeepsDigits(decode: string -> string) {
    forall s :: AllDigits(s) ==> decode(s) == s
  }

  // ----------------------------------------------------------------- dates

  /** The ISO text `parseDate` builds, with the offsets as written: the
      second slice starts inside the year. */
  function DateTextAsWritten(t: string): (r: string)
    ensures |t| >= 7 ==> r == t[..4] + "-" + t[3..5] + "-" + t[5..7]
  {
    JoinThree(Substr(t, 0, 4), Substr(t, 3, 2), Substr(t, 5, 2), "-");
    Join([Substr(t, 0, 4), Substr(t, 3, 2), Substr(t, 5, 2)], "-")
  }

  /** The ISO text with the offsets of the `YYYYMMDD` layout. */
  function DateText(t: string): (r: string)
    ensures |t| >= 8 ==> r == t[..4] + "-" + t[4..6] + "-" + t[6..8]
  {
    JoinThree(Substr(t, 0, 4), Substr(t, 4, 2), Substr(t, 6, 2), "-");
    Join([Substr(t, 0, 4), Substr(t, 4, 2), Substr(t, 6, 2)], "-")
  }

  /** `parseDate` as written, up to the ISO text it hands to `Date.parse`:
      the text is decoded, then sliced at offsets 0, 3 and 5. */
  function ParseDateAsWritten(d: Decoders, s: string): (r: string)
    ensures var t := d.text(s); |t| >= 7 ==> r == t[..4] + "-" + t[3..5] + "-" + t[5..7]
  {
    DateTextAsWritten(d.text(s))
  }

  /** `parseDate` corrected, up to the ISO text it hands to `Date.parse`:
      the text is decoded, then sliced at offsets 0, 4 and 6. */
  function ParseDate(d: Decoders, s: string): (r: string)
    ensures var t := d.text(s); |t| >= 8 ==> r == t[..4] + "-" + t[4..6] + "-" + t[6..8]
  {
    DateText(d.text(s))
  }

  /** The corrected reading gives back the ISO date of the day that was encoded. */
  lemma ParseDateRoundTrip(d: Decoders, dt: WebUntis.Date)
    requires KeepsDigits(d.text)
    requires WebUntis.ValidDate(dt) && dt.year >= 1000
    ensures ParseDate(d, DecimalString(WebUntis.FormatDate(dt))) == WebUntis.IsoDate(dt)
  {
    WebUntis.FormatDateText(dt);
    var t := WebUntis.DateDigits(dt);
    assert d.text(t) == t;
    var y, m, dd := Fixed(dt.year, 4), Fixed(dt.month, 2), Fixed(dt.day, 2);
    assert t[..4] == y && t[4..6] == m && t[6..8] == dd;
  }

  /** As written, the wire date `20240115` is read as `2024-40-11`. */
  lemma ParseDateAsWrittenMisreads(d: Decoders)
    requires d.text("20240115") == "20240115"
    ensures ParseDateAsWritten(d, "20240115") == "2024-40-11"
  {
    var t := "20240115";
    assert t[..4] == "2024" && t[3..5] == "40" && t[5..7] == "11";
  }

  /** As written, the reading of the code of 2024-01-15 is not its ISO text. */
  lemma ParseDateAsWrittenNoRoundTrip(d: Decoders, dt: WebUntis.Date)
    requires d.text("20240115") == "20240115"
    requires dt == WebUntis.Date(2024, 1, 15)
    ensures WebUntis.ValidDate(dt)
    ensures ParseDateAsWritten(d, DecimalString(WebUntis.FormatDate(dt))) != WebUntis.IsoDate(dt)
  {
    WebUntis.FormatDateExample(dt);
    ParseDateAsWrittenMisreads(d);
    var r := ParseDateAsWritten(d, "20240115");
    assert r[5] == '4';
    assert WebUntis.IsoDate(dt)[5] == '0';
  }

  // ----------------------------------------------------------------- rooms

  /** A slot of a room substitution: a non-empty text becomes a room; a
      `null`, missing or empty one leaves the slot unset. */
  function RoomSlot(v: Slot<string>): (r: Slot<Rooms.Room>)
    ensures r.Present? <==> v.Present? && v.value != ""
    ensures r.Present? ==> r.value == Rooms.NewRoom(v.value)
    ensures !r.Null?
  {
    if v.Present? && v.value != "" then Present(Rooms.NewRoom(v.value)) else Absent
  }

  /** One token of a room list. The captures of the markup are decoded once
      more, on top of the decoding of the whole field. */
  function RoomOf(decode: string -> string, token: string): (r: RoomField)
    ensures r.PlainRoom? <==> !IsSubstitution(token)
    ensures r.PlainRoom? ==> r.room == Rooms.NewRoom(token)
    ensures r.SubstRoom? ==>
      var (a, b) := MatchSubstitution(token).value;
      && (r.rooms.current.Present? <==> a != Sentinel && decode(a) != "")
      && (r.rooms.current.Present? ==> r.rooms.current.value == Rooms.NewRoom(decode(a)))
      && (r.rooms.subst.Present? <==> b != Sentinel && decode(b) != "")
      && (r.rooms.subst.Present? ==> r.rooms.subst.value == Rooms.NewRoom(decode(b)))
      && !r.rooms.current.Null? && !r.rooms.subst.Null?
  {
    if !IsSubstitution(token) then PlainRoom(Rooms.NewRoom(token))
    else
      var names := SplitSubstitution(decode, token);
      SubstRoom(Substitution(RoomSlot(names.current), RoomSlot(names.subst)))
  }

  /** The tokens of a room field: decoded first, then split at `", "`. */
  function RoomTokens(d: Decoders, s: string): (tokens: seq<string>)
    ensures |tokens| == Occurrences(d.text(s), ", ") + 1
    ensures Join(tokens, ", ") == d.text(s)
    ensures forall k :: 0 <= k < |tokens| ==> !Contains(tokens[k], ", ")
  {
    SplitCount(d.text(s), ", ");
    JoinSplit(d.text(s), ", ");
    SplitPartsFree(d.text(s), ", ");
    Split(d.text(s), ", ")
  }

  /** `parseRooms`: one room field per token, in token order. */
  function ParseRooms(d: Decoders, s: string): (r: seq<RoomField>)
    ensures |r| == |RoomTokens(d, s)| == Occurrences(d.text(s), ", ") + 1
    ensures forall k :: 0 <= k < |r| ==> r[k] == RoomOf(d.text, RoomTokens(d, s)[k])
  {
    var tokens := RoomTokens(d, s);
    seq(|tokens|, k requires 0 <= k < |tokens| => RoomOf(d.text, tokens[k]))
  }

  // --------------------------------------------------------------- teacher

  /** `parseTeacher`: a text outside the markup is kept as it is, not
      decoded; markup is split, its captures decoded. */
  function ParseTeacher(d: Decoders, s: string): (r: TeacherField)
    ensures r.PlainTeacher? <==> !IsSubstitution(s)
    ensures r.PlainTeacher? ==> r.name == s
    ensures r.SubstTeacher? ==>
      var (a, b) := MatchSubstitution(s).value;
      && (r.names.current.Null? <==> a == Sentinel) && (r.names.subst.Null? <==> b == Sentinel)
      && (a != Sentinel ==> r.names.current == Present(d.text(a)))
      && (b != Sentinel ==> r.names.subst == Present(d.text(b)))
  {
    if !IsSubstitution(s) then PlainTeacher(s) else SubstTeacher(SplitSubstitution(d.text, s))
  }

  // ---------------------------------------------------------------- groups

  /** `parseGroups`: one group per code, in order, each code decoded. */
  function ParseGroups(d: Decoders, codes: seq<string>): (r: seq<Groups.Group>)
    ensures |r| == |codes|
    ensures forall k :: 0 <= k < |r| ==> r[k].shortName == d.text(codes[k])
  {
    seq(|codes|, k requires 0 <= k < |codes| => Groups.Group(d.text(codes[k])))
  }

  /** The group cell of a row: split at `", "` before decoding, so the
      number of groups is fixed by the raw text, not by the decoded one. */
  function RowGroups(d: Decoders, s: string): (r: seq<Groups.Group>)
    ensures |r| == |Split(s, ", ")| == Occurrences(s, ", ") + 1
    ensures forall k :: 0 <= k < |r| ==> r[k].shortName == d.text(Split(s, ", ")[k])
  {
    SplitCount(s, ", ");
    ParseGroups(d, Split(s, ", "))
  }

  // ------------------------------------------------------------------ rows

  /** Reading a cell a row does not have throws. */
  datatype ParseError = MalformedRow

  /** `parseEntry`: the eight cells, by position; a row with fewer cells
      throws, and cells past the eighth are ignored. */
  function ParseEntry(d: Decoders, row: Row): (r: Result<Entry, ParseError>)
    ensures r.Failure? <==> |row.data| < 8
    ensures r.Success? ==>
      var c := row.data;
      var e := r.value;
      && e.lesson == d.number(d.text(c[0]))
      && e.time == d.text(c[1])
      && e.groups == RowGroups(d, c[2])
      && e.subject == Subjects.NewSubject(d.text(c[3])) && e.subject.shortName == d.text(c[3])
      && e.rooms == ParseRooms(d, c[4]) && |e.rooms| >= 1
      && e.teacher == ParseTeacher(d, c[5])
      && e.info == d.text(c[6])
      && e.message == d.text(c[7])
  {
    if |row.data| < 8 then Failure(MalformedRow)
    else
      var c := row.data;
      Success(NewEntry(d.number(d.text(c[0])), d.text(c[1]), RowGroups(d, c[2]), Subjects.NewSubject(d.text(c[3])),
                       ParseRooms(d, c[4]), ParseTeacher(d, c[5]), d.text(c[6]), d.text(c[7])))
  }

  /** `parseEntry` as written, handing its object to the constructor of
      `Entry.ts` as it stands: the stored object keeps no room and agrees
      with the corrected entry on every other field. */
  function ParseEntryAsWritten(d: Decoders, row: Row): (r: Result<StoredEntry, ParseError>)
    ensures r.Failure? <==> ParseEntry(d, row).Failure?
    ensures r.Success? ==>
      var e := ParseEntry(d, row).value;
      && r.value.room.None? && r.value.substRoom.None? && r.value.substTeacher.None?
      && r.value.lesson == e.lesson && r.value.time == e.time && r.value.groups == e.groups
      && r.value.subject == e.subject && r.value.teacher == e.teacher
      && r.value.info == e.info && r.value.message == e.message
  {
    if |row.data| < 8 then Failure(MalformedRow)
    else
      var c := row.data;
      Success(StoredAsWritten(d.number(d.text(c[0])), d.text(c[1]), RowGroups(d, c[2]), Subjects.NewSubject(d.text(c[3])),
                              ParseRooms(d, c[4]), ParseTeacher(d, c[5]), d.text(c[6]), d.text(c[7])))
  }

  /** As written, two rows that differ only in their room cell give equal
      stored objects, and removing repeats keeps one of them; the corrected
      entries stay two whenever the room fields differ. */
  lemma RoomRowsMergedAsWritten(d: Decoders, a: Row, b: Row)
    requires |a.data| >= 8 && |b.data| >= 8
    requires forall i :: 0 <= i < 8 && i != 4 ==> a.data[i] == b.data[i]
    ensures ParseEntryAsWritten(d, a) == ParseEntryAsWritten(d, b)
    ensures var x := ParseEntryAsWritten(d, a).value; Unique([x, x]) == [x]
    ensures ParseRooms(d, a.data[4]) != ParseRooms(d, b.data[4]) ==>
      var ea := ParseEntry(d, a).value;
      var eb := ParseEntry(d, b).value;
      Unique([ea, eb]) == [ea, eb]
  {
    assert a.data[0] == b.data[0] && a.data[1] == b.data[1] && a.data[2] == b.data[2] && a.data[3] == b.data[3];
    assert a.data[5] == b.data[5] && a.data[6] == b.data[6] && a.data[7] == b.data[7];
    var x := ParseEntryAsWritten(d, a).value;
    UniquePair(x, x);
    var ea := ParseEntry(d, a).value;
    var eb := ParseEntry(d, b).value;
    UniquePair(ea, eb);
  }

  /** `rows.map(parseEntry)`: one entry per row, or the failure of a short row. */
  function ParseRows(d: Decoders, rows: seq<Row>): (r: Result<seq<Entry>, ParseError>)
    ensures r.Failure? <==> exists k :: 0 <= k < |rows| && |rows[k].data| < 8
    ensures r.Success? ==> |r.value| == |rows|
    ensures r.Success? ==> forall k {:trigger ParseEntry(d, rows[k])} :: 0 <= k < |rows| ==> ParseEntry(d, rows[k]) == Success(r.value[k])
  {
    if rows == [] then Success([])
    else
      match ParseEntry(d, rows[0])
      case Failure(e) => Failure(e)
      case Success(first) =>
        match ParseRows(d, rows[1..])
        case Failure(e) => Failure(e)
        case Success(rest) =>
          RowsStep(d, rows, first, rest);
          Success([first] + rest)
  }

  /** The entries of the rows after the first, behind the first row's entry. */
  lemma RowsStep(d: Decoders, rows: seq<Row>, first: Entry, rest: seq<Entry>)
    requires rows != [] && ParseEntry(d, rows[0]) == Success(first) && |rest| == |rows| - 1
    requires forall k {:trigger ParseEntry(d, rows[1..][k])} :: 0 <= k < |rows| - 1 ==> ParseEntry(d, rows[1..][k]) == Success(rest[k])
    ensures forall k {:trigger ParseEntry(d, rows[k])} :: 0 <= k < |rows| ==> ParseEntry(d, rows[k]) == Success(([first] + rest)[k])
  {
    ResultsStep(row => ParseEntry(d, row), rows, first, rest);
  }

  /** `RowsStep` for any parse of a row, so that the proof does not look into `ParseEntry`. */
  lemma ResultsStep(parse: Row -> Result<Entry, ParseError>, rows: seq<Row>, first: Entry, rest: seq<Entry>)
    requires rows != [] && parse(rows[0]) == Success(first) && |rest| == |rows| - 1
    requires forall k :: 0 <= k < |rows| - 1 ==> parse(rows[1..][k]) == Success(rest[k])
    ensures forall k :: 0 <= k < |rows| ==> parse(rows[k]) == Success(([first] + rest)[k])
  {
    forall k | 1 <= k < |rows| ensures parse(rows[k]) == Success(([first] + rest)[k]) {
      assert rows[k] == rows[1..][k - 1];
      assert ([first] + rest)[k] == rest[k - 1];
    }
  }

  /**
   * `parseEntries`: the rows' entries, keeping an entry only when no equal
   * one was kept before. The result has no two equal entries, holds every
   * row's entry, and lists them in the order of their first occurrence.
   */
  method ParseEntries(d: Decoders, rows: seq<Row>) returns (r: Result<seq<Entry>, ParseError>)
    ensures r.Failure? <==> exists k :: 0 <= k < |rows| && |rows[k].data| < 8
    ensures r.Success? ==> r.value == Unique(ParseRows(d, rows).value)
    ensures r.Success? ==> NoDuplicates(r.value) && IsSubsequence(r.value, ParseRows(d, rows).value)
    ensures r.Success? ==> forall k :: 0 <= k < |rows| ==> ParseEntry(d, rows[k]).value in r.value
  {
    match ParseRows(d, rows)
    case Failure(e) =>
      r := Failure(e);
    case Success(entries) =>
      var unique := KeepFirst(entries);
      RowsInUnique(d, rows);
      r := Success(unique);
  }

  /** The `forEach` of `parseEntries`: an entry is pushed when no equal one
      was pushed before. */
  method KeepFirst(entries: seq<Entry>) returns (unique: seq<Entry>)
    ensures unique == Unique(entries)
  {
    unique := [];
    for i := 0 to |entries|
      invariant unique == Unique(entries[..i])
    {
      assert entries[..i + 1][..i] == entries[..i];
      UniqueStep(entries[..i + 1]);
      if entries[i] !in unique {
        unique := unique + [entries[i]];
      }
    }
    assert entries[..|entries|] == entries;
  }

  /** Every row's entry survives deduplication. */
  lemma RowsInUnique(d: Decoders, rows: seq<Row>)
    requires ParseRows(d, rows).Success?
    ensures forall k :: 0 <= k < |rows| ==> ParseEntry(d, rows[k]).value in Unique(ParseRows(d, rows).value)
  {
    var entries := ParseRows(d, rows).value;
    forall k | 0 <= k < |rows| ensures ParseEntry(d, rows[k]).value in Unique(entries) {
      assert ParseEntry(d, rows[k]).value == entries[k];
    }
  }

  // -------------------------------------------------------------- messages

  /** `parseMessages`: each message's subject and body decoded, in order. */
  function ParseMessages(d: Decoders, ms: seq<RawMessage>): (r: seq<Message>)
    ensures |r| == |ms|
    ensures forall k :: 0 <= k < |r| ==> r[k] == Message(d.text(ms[k].subject), d.text(ms[k].body))
  {
    seq(|ms|, k requires 0 <= k < |ms| => Message(d.text(ms[k].subject), d.text(ms[k].body)))
  }

  // ------------------------------------------------------------------ plan

  /** `parseDayPlan`: the date read from the number's decimal text, the
      decoded update time, the affected groups, the messages and the
      deduplicated entries; a short row makes it fail. */
  function ParseDayPlan(d: Decoders, p: Payload): (r: Result<DayPlan, ParseError>)
    ensures r.Failure? <==> exists k :: 0 <= k < |p.rows| && |p.rows[k].data| < 8
    ensures r.Success? ==>
      && r.value.date == ParseDate(d, DecimalString(p.date))
      && r.value.lastUpdate == d.text(p.lastUpdate)
      && r.value.affectedGroups == ParseGroups(d, p.affectedElements)
      && r.value.messages == ParseMessages(d, p.messages)
      && r.value.entries == Unique(ParseRows(d, p.rows).value)
      && NoDuplicates(r.value.entries)
  {
    match ParseRows(d, p.rows)
    case Failure(e) => Failure(e)
    case Success(entries) =>
      Success(DayPlan(ParseDate(d, DecimalString(p.date)), d.text(p.lastUpdate),
                      ParseGroups(d, p.affectedElements), ParseMessages(d, p.messages), Unique(entries)))
  }

  /** A payload for the day `dt` gives a plan dated with the ISO text of `dt`. */
  lemma ParseDayPlanDate(d: Decoders, p: Payload, dt: WebUntis.Date)
    requires KeepsDigits(d.text)
    requires WebUntis.ValidDate(dt) && dt.year >= 1000 && p.date == WebUntis.FormatDate(dt)
    requires ParseDayPlan(d, p).Success?
    ensures ParseDayPlan(d, p).value.date == WebUntis.IsoDate(dt)
  {
    ParseDateRoundTrip(d, dt);
  }

  /** A plan built from a payload lists, for each group it concerns, every
      row's entry that affects that group, and lists none twice. */
  lemma ParseDayPlanEntriesFor(d: Decoders, p: Payload, g: Groups.Group, k: nat)
    requires ParseDayPlan(d, p).Success? && k < |p.rows|
    ensures var plan := ParseDayPlan(d, p).value;
      var e := ParseEntry(d, p.rows[k]).value;
      plan.IsAffected(g) && e.Affects(g) ==> e in plan.EntriesFor(g)
    ensures NoDuplicates(ParseDayPlan(d, p).value.EntriesFor(g))
  {
    var plan := ParseDayPlan(d, p).value;
    AffectingDistinct(plan.entries, g);
    var e := ParseEntry(d, p.rows[k]).value;
    var entries := ParseRows(d, p.rows).value;
    assert e == entries[k];
    EntriesForMembers(plan, g, e);
  }
}
