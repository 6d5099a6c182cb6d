/**
 * One row of a day's substitution plan. The constructor of `Entry.ts` copies
 * the fields `room`, `substRoom` and `substTeacher`, while the parser hands it
 * a `rooms` list instead; `StoredAsWritten` models what is kept then, and
 * `Entry` the record with its rooms that the rest of the model uses.
 */
module Entries {
  import opened Wrappers
  import opened Substitutions
  import Groups
  import Subjects
  import Rooms

  /** A room field: a plain room, or a substitution of one room by another. */
  datatype RoomField = PlainRoom(room: Rooms.Room) | SubstRoom(rooms: Substitution<Rooms.Room>)

  /** A teacher field: the raw teacher text, or a substitution of teachers. */
  datatype TeacherField = PlainTeacher(name: string) | SubstTeacher(names: Substitution<string>)

  /** An entry with every field the parser supplies; `lesson` is `None` where
      `Number.parseInt` gives `NaN`. */
  datatype Entry = Entry(
    lesson: Option<int>,
    time: string,
    groups: seq<Groups.Group>,
    subject: Subjects.Subject,
    rooms: seq<RoomField>,
    teacher: TeacherField,
    info: string,
    message: string)
  {
    /** `affects`: whether the group is listed for this entry. */
    predicate Affects(g: Groups.Group): (r: bool)
      ensures r <==> exists i :: 0 <= i < |groups| && groups[i] == g
      ensures groups == [] ==> !r
    {
      g in groups
    }
  }

  /** The constructor with its fields copied from the parsed values, rooms included. */
  function NewEntry(lesson: Option<int>, time: string, groups: seq<Groups.Group>, subject: Subjects.Subject,
                    rooms: seq<RoomField>, teacher: TeacherField, info: string, message: string): (e: Entry)
    ensures e.lesson == lesson && e.time == time && e.groups == groups && e.subject == subject
    ensures e.rooms == rooms && e.teacher == teacher && e.info == info && e.message == message
  {
    Entry(lesson, time, groups, subject, rooms, teacher, info, message)
  }

  /** Entries built from different values are different: nothing is dropped. */
  lemma NewEntryInjective(lesson: Option<int>, time: string, groups: seq<Groups.Group>, subject: Subjects.Subject,
                          rooms: seq<RoomField>, teacher: TeacherField, info: string, message: string,
                          lesson': Option<int>, time': string, groups': seq<Groups.Group>, subject': Subjects.Subject,
                          rooms': seq<RoomField>, teacher': TeacherField, info': string, message': string)
    requires NewEntry(lesson, time, groups, subject, rooms, teacher, info, message)
          == NewEntry(lesson', time', groups', subject', rooms', teacher', info', message')
    ensures lesson == lesson' && time == time' && groups == groups' && subject == subject'
    ensures rooms == rooms' && teacher == teacher' && info == info' && message == message'
  {
  }

  /** The object `Entry.ts`'s constructor builds: its own field set, where the
      optional `substRoom` and `substTeacher` are `None` when left out. */
  datatype StoredEntry = StoredEntry(
    lesson: Option<int>,
    time: string,
    groups: seq<Groups.Group>,
    subject: Subjects.Subject,
    room: Option<RoomField>,
    substRoom: Option<Rooms.Room>,
    teacher: TeacherField,
    substTeacher: Option<string>,
    info: string,
    message: string)

  /** The constructor as written, given the parser's object: `room`,
      `substRoom` and `substTeacher` are read from keys the object does not
      have, and its `rooms` is not copied. */
  function StoredAsWritten(lesson: Option<int>, time: string, groups: seq<Groups.Group>, subject: Subjects.Subject,
                           rooms: seq<RoomField>, teacher: TeacherField, info: string, message: string): (e: StoredEntry)
    ensures e.room.None? && e.substRoom.None? && e.substTeacher.None?
    ensures e.lesson == lesson && e.time == time && e.groups == groups && e.subject == subject
    ensures e.teacher == teacher && e.info == info && e.message == message
  {
    StoredEntry(lesson, time, groups, subject, None, None, teacher, None, info, message)
  }

  /** As written, two rows that differ only in their rooms give equal objects
      (and so equal serialisations, which deduplication then merges), while
      the corrected constructor keeps them apart. */
  lemma AsWrittenLosesRooms(lesson: Option<int>, time: string, groups: seq<Groups.Group>, subject: Subjects.Subject,
                            teacher: TeacherField, info: string, message: string)
    ensures var a := [PlainRoom(Rooms.NewRoom("A101"))];
            var b := [PlainRoom(Rooms.NewRoom("B204"))];
            && StoredAsWritten(lesson, time, groups, subject, a, teacher, info, message)
            == StoredAsWritten(lesson, time, groups, subject, b, teacher, info, message)
            && NewEntry(lesson, time, groups, subject, a, teacher, info, message)
            != NewEntry(lesson, time, groups, subject, b, teacher, info, message)
  {
    var ra := Rooms.NewRoom("A101");
    var rb := Rooms.NewRoom("B204");
    assert ra.shortName != rb.shortName by {
      assert ra.shortName[0] == 'A' && rb.shortName[0] == 'B';
    }
    assert [PlainRoom(ra)][0] != [PlainRoom(rb)][0];
  }
}
