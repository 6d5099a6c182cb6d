/**
 * Rooms: a code such as `BSp3` (building `B`, the sports hall, number 3) and
 * its long name, read by the regular expression
 * `^(F|L|B|A|N|V) ?(|Geo|Sp|...|GW)? ?([0-9]+)?(?:BR(0-9+))?$`.
 * The room group lists the empty key first; an ECMAScript engine rejects an
 * iteration of `(...)?` that matches the empty text (ECMA-262 section
 * 22.2.2.3.1, RepeatMatcher), so that key is never the one captured. The
 * group `(0-9+)` is the literal `0-` followed by one or more `9`s.
 */
module Rooms {
  import opened Wrappers
  import opened Text

  const BuildingNames: Table := [
    ("F", "Forum"),
    ("L", "Lichthof"),
    ("B", ""),
    ("A", ""),
    ("N", ""),
    ("V", "")
  ]

  const RoomNames: Table := [
    ("", ""),
    ("Geo", "Geografieraum"),
    ("Sp", "Sporthalle"),
    ("Chem", "Chemieraum"),
    ("Phy", "Physikraum"),
    ("Bio", "Biologieraum"),
    ("Info", "Computerraum"),
    ("Ku", "Kunstraum"),
    ("Rapp", "Rappelkiste"),
    ("Mu", "Musikraum"),
    ("208/209", "208/209"),
    ("Büh", "Bühne"),
    ("GW", "Geschichtswerkstatt")
  ]

  const AreaMark: string := "BR0-"

  /** `(?:BR(0-9+))?$`: the group is tried first, its `9+` longest first, then skipped.
      The capture is `0-` and the nines. */
  function Area(v: string): (r: Option<Option<string>>)
  {
    var inGroup :=
      if StartsWith(v, AreaMark) then
        var w := v[|AreaMark|..];
        match GreedyRun(w, NineRun(w), AtEnd)
        case Some(k) => Some(Some("0-" + w[..k]))
        case None => None
      else None;
    if inGroup.Some? then inGroup
    else if v == "" then Some(None)
    else None
  }

  predicate AreaMatches(v: string) {
    Area(v).Some?
  }

  /** `([0-9]+)?` and the area: the digits longest first, then skipped. */
  function Number(v: string): (r: Option<(Option<string>, Option<string>)>)
  {
    match GreedyRun(v, DigitRun(v), AreaMatches)
    case Some(k) => Some((Some(v[..k]), Area(v[k..]).value))
    case None => if Area(v).Some? then Some((None, Area(v).value)) else None
  }

  /** ` ?` before the number: the space is tried first, then skipped. */
  function SecondSpace(v: string): (r: Option<(Option<string>, Option<string>)>)
  {
    if StartsWith(v, " ") && Number(v[1..]).Some? then Number(v[1..]) else Number(v)
  }

  /** A room key that can be captured: any but the empty one. */
  predicate IsRoomIndex(i: nat) {
    i < |RoomNames| && RoomNames[i].0 != ""
  }

  /** An iteration of the room group: a non-empty key after which the rest matches. */
  predicate RoomKeyMatches(k: string, v: string) {
    k != "" && SecondSpace(v).Some?
  }

  /** The captures after the building: room key index, number and area. */
  datatype Rest = Rest(room: Option<nat>, number: Option<string>, area: Option<string>)

  /** `(KEY|...)?` and what follows: an iteration with the keys from the left, then none. */
  function RoomPart(v: string): (r: Option<Rest>)
    ensures r.Some? && r.value.room.Some? ==> IsRoomIndex(r.value.room.value)
  {
    var keys := Keys(RoomNames);
    match FirstKey(keys, v, RoomKeyMatches)
    case Some(i) =>
      var (n, a) := SecondSpace(v[|keys[i]|..]).value;
      Some(Rest(Some(i), n, a))
    case None =>
      match SecondSpace(v)
      case Some((n, a)) => Some(Rest(None, n, a))
      case None => None
  }

  /** ` ?` after the building. */
  function FirstSpace(v: string): (r: Option<Rest>)
    ensures r.Some? && r.value.room.Some? ==> IsRoomIndex(r.value.room.value)
  {
    if StartsWith(v, " ") && RoomPart(v[1..]).Some? then RoomPart(v[1..]) else RoomPart(v)
  }

  predicate FirstSpaceMatches(k: string, v: string) {
    FirstSpace(v).Some?
  }

  datatype RoomMatch = RoomMatch(building: nat, rest: Rest)

  function MatchRoom(id: string): (r: Option<RoomMatch>)
    ensures r.Some? ==> r.value.building < |BuildingNames|
    ensures r.Some? && r.value.rest.room.Some? ==> IsRoomIndex(r.value.rest.room.value)
  {
    var keys := Keys(BuildingNames);
    match FirstKey(keys, id, FirstSpaceMatches)
    case None => None
    case Some(b) => Some(RoomMatch(b, FirstSpace(id[|keys[b]|..]).value))
  }

  /** `parseRoom`: the building's name and a space when the name is not
      empty; the room's name, or the empty key's name when no room key was
      captured; then the number and the area, each after a space. An id that
      does not match comes back unchanged. */
  function ParseRoom(id: string): (r: string)
    ensures MatchRoom(id).None? ==> r == id
  {
    match MatchRoom(id)
    case None => id
    case Some(m) => Describe(m)
  }

  /** The long name `parseRoom` assembles from the captures of a match. */
  function Describe(m: RoomMatch): string
    requires m.building < |BuildingNames|
    requires m.rest.room.Some? ==> IsRoomIndex(m.rest.room.value)
  {
    var building := BuildingNames[m.building].1;
    var room :=
      if m.rest.room.Some? then RoomNames[m.rest.room.value].1
      else Rendered(Lookup(RoomNames, ""));
    (if building != "" then building + " " else "") + room
      + (if m.rest.number.Some? then " " + m.rest.number.value else "")
      + (if m.rest.area.Some? then " " + m.rest.area.value else "")
  }

  function Space(s: bool): string {
    if s then " " else ""
  }

  function Nines(k: nat): (r: string)
    ensures |r| == k && forall i :: 0 <= i < k ==> r[i] == '9'
  {
    seq(k, i => '9')
  }

  /** The text of an area part with `k` nines, and the capture it gives. */
  function AreaText(a: Option<nat>): string {
    match a
    case None => ""
    case Some(k) => AreaMark + Nines(k)
  }

  function AreaCapture(a: Option<nat>): Option<string> {
    match a
    case None => None
    case Some(k) => Some("0-" + Nines(k))
  }

  predicate IsArea(a: Option<nat>) {
    a.Some? ==> a.value >= 1
  }

  lemma AreaExact(a: Option<nat>)
    requires IsArea(a)
    ensures Area(AreaText(a)) == Some(AreaCapture(a))
  {
    if a.Some? {
      var v := AreaText(a);
      var w := v[|AreaMark|..];
      assert w == Nines(a.value);
      assert NineRun(w) == |w|;
      assert AtEnd(w[|w|..]);
      assert w[..|w|] == w;
    }
  }

  lemma AreaSound(v: string) returns (a: Option<nat>)
    requires Area(v).Some?
    ensures IsArea(a) && v == AreaText(a) && Area(v).value == AreaCapture(a)
  {
    a := None;
    if StartsWith(v, AreaMark) {
      var w := v[|AreaMark|..];
      var g := GreedyRun(w, NineRun(w), AtEnd);
      if g.Some? {
        var k := g.value;
        assert w[k..] == "";
        assert w[..k] == w[..NineRun(w)][..k];
        assert |w| == k && w[..k] == w;
        assert w == Nines(k);
        assert Area(v) == Some(Some("0-" + w[..k]));
        assert v == v[..|AreaMark|] + w;
        a := Some(k);
      }
    }
  }

  /** What follows the room key: optional space, optional number, optional area. */
  function NumberTail(s2: bool, n: Option<string>, a: Option<nat>): string {
    Space(s2) + n.GetOr("") + AreaText(a)
  }

  lemma NumberExact(n: Option<string>, a: Option<nat>)
    requires IsDigitCapture(n) && IsArea(a)
    ensures Number(n.GetOr("") + AreaText(a)) == Some((n, AreaCapture(a)))
  {
    var d := n.GetOr("");
    var v := d + AreaText(a);
    AreaExact(a);
    AreaTextStart(a);
    DigitRunBeforeArea(d, AreaText(a));
    assert v[|d|..] == AreaText(a);
  }

  lemma AreaTextStart(a: Option<nat>)
    ensures AreaText(a) == [] || AreaText(a)[0] == 'B'
  {
  }

  lemma DigitRunBeforeArea(d: string, t: string)
    requires AllDigits(d) && (t == [] || t[0] == 'B')
    ensures DigitRun(d + t) == |d|
  {
    var v := d + t;
    assert v[..|d|] == d;
    if t != [] {
      assert v[|d|] == 'B';
    }
  }

  lemma NumberSound(v: string) returns (n: Option<string>, a: Option<nat>)
    requires Number(v).Some?
    ensures IsDigitCapture(n) && IsArea(a)
    ensures v == n.GetOr("") + AreaText(a) && Number(v).value == (n, AreaCapture(a))
  {
    var g := GreedyRun(v, DigitRun(v), AreaMatches);
    if g.Some? {
      a := DigitsThenArea(v, g.value);
      n := Some(v[..g.value]);
    } else {
      a := AreaSound(v);
      n := None;
    }
  }

  lemma DigitsThenArea(v: string, k: nat) returns (a: Option<nat>)
    requires 1 <= k <= DigitRun(v) && Area(v[k..]).Some?
    ensures IsArea(a) && IsDigitCapture(Some(v[..k])) && v == v[..k] + AreaText(a)
    ensures Area(v[k..]).value == AreaCapture(a)
  {
    a := AreaSound(v[k..]);
    assert v[..k] == v[..DigitRun(v)][..k];
    assert v == v[..k] + v[k..];
  }

  lemma SpaceTaken(w: string)
    requires Number(w).Some?
    ensures SecondSpace(" " + w) == Number(w)
  {
    assert (" " + w)[1..] == w;
  }

  lemma SpaceSkipped(w: string)
    requires !StartsWith(w, " ")
    ensures SecondSpace(w) == Number(w)
  {
  }

  lemma NumberTailStart(n: Option<string>, a: Option<nat>)
    requires IsDigitCapture(n)
    ensures !StartsWith(n.GetOr("") + AreaText(a), " ")
  {
    var w := n.GetOr("") + AreaText(a);
    if w != [] {
      if n.Some? {
        assert w[0] == n.value[0];
      } else {
        AreaTextStart(a);
      }
      assert w[..1] == [w[0]];
    }
  }

  /** The optional space is read off the front of a number tail `w`. */
  lemma SecondSpaceOf(s2: bool, w: string)
    requires Number(w).Some? && !StartsWith(w, " ")
    ensures SecondSpace(Space(s2) + w) == Number(w)
  {
    if s2 {
      SpaceTaken(w);
    } else {
      assert Space(s2) + w == w;
    }
  }

  lemma NumberTailSplit(s2: bool, n: Option<string>, a: Option<nat>)
    ensures NumberTail(s2, n, a) == Space(s2) + (n.GetOr("") + AreaText(a))
  {
  }

  lemma SecondSpaceExact(s2: bool, n: Option<string>, a: Option<nat>)
    requires IsDigitCapture(n) && IsArea(a)
    ensures SecondSpace(NumberTail(s2, n, a)) == Some((n, AreaCapture(a)))
  {
    NumberExact(n, a);
    NumberTailStart(n, a);
    NumberTailSplit(s2, n, a);
    SecondSpaceOf(s2, n.GetOr("") + AreaText(a));
  }

  /** A text is its optional leading space and what follows it. */
  lemma SpaceJoin(v: string, s: bool, w: string)
    requires s ==> StartsWith(v, " ") && w == v[1..]
    requires !s ==> w == v
    ensures v == Space(s) + w
  {
    if s {
      assert v == v[..1] + v[1..];
    }
  }

  lemma SecondSpaceSound(v: string) returns (s2: bool, n: Option<string>, a: Option<nat>)
    requires SecondSpace(v).Some?
    ensures IsDigitCapture(n) && IsArea(a)
    ensures v == NumberTail(s2, n, a) && SecondSpace(v).value == (n, AreaCapture(a))
  {
    s2 := StartsWith(v, " ") && Number(v[1..]).Some?;
    var w := if s2 then v[1..] else v;
    assert SecondSpace(v) == Number(w);
    n, a := NumberSound(w);
    SpaceJoin(v, s2, w);
    NumberTailSplit(s2, n, a);
  }

  /** The captured room key's text; no key stands for the empty text. */
  function RoomKey(r: Option<nat>): string {
    if r.Some? && IsRoomIndex(r.value) then RoomNames[r.value].0 else ""
  }

  predicate IsRoomChoice(r: Option<nat>) {
    r.Some? ==> IsRoomIndex(r.value)
  }

  /** What follows the building and its optional space. */
  function RoomTail(r: Option<nat>, s2: bool, n: Option<string>, a: Option<nat>): string {
    RoomKey(r) + NumberTail(s2, n, a)
  }

  /** The characters a number tail is made of. */
  predicate IsTailChar(ch: char) {
    ch == ' ' || IsDigit(ch) || ch == 'B' || ch == 'R' || ch == '-'
  }

  predicate AllTailChars(t: string) {
    forall i :: 0 <= i < |t| ==> IsTailChar(t[i])
  }

  lemma TailCharsConcat(x: string, y: string)
    requires AllTailChars(x) && AllTailChars(y)
    ensures AllTailChars(x + y)
  {
    forall i | 0 <= i < |x + y| ensures IsTailChar((x + y)[i]) {
      if i >= |x| {
        assert (x + y)[i] == y[i - |x|];
      }
    }
  }

  lemma AreaTextChars(a: Option<nat>)
    ensures AllTailChars(AreaText(a))
  {
    if a.Some? {
      var t := AreaText(a);
      forall i | 0 <= i < |t| ensures IsTailChar(t[i]) {
        if i >= |AreaMark| {
          assert t[i] == Nines(a.value)[i - |AreaMark|];
        }
      }
    }
  }

  lemma NumberTailChars(s2: bool, n: Option<string>, a: Option<nat>)
    requires IsDigitCapture(n)
    ensures AllTailChars(NumberTail(s2, n, a))
  {
    var d := n.GetOr("");
    assert AllTailChars(Space(s2));
    assert AllTailChars(d);
    AreaTextChars(a);
    TailCharsConcat(Space(s2), d);
    TailCharsConcat(Space(s2) + d, AreaText(a));
  }

  /** Every room key that can be captured holds a character no number tail holds. */
  lemma RoomKeysForeign()
    ensures forall j :: 1 <= j < |RoomNames| ==> !AllTailChars(RoomNames[j].0)
  {
    forall j | 1 <= j < |RoomNames| ensures !AllTailChars(RoomNames[j].0) {
      var k := RoomNames[j].0;
      var at := if j == 5 || j == 8 || j == 11 then 1 else if j == 10 then 3 else 0;
      assert j == 1 || j == 2 || j == 3 || j == 4 || j == 5 || j == 6 || j == 7 || j == 8
        || j == 9 || j == 10 || j == 11 || j == 12;
      assert !IsTailChar(k[at]);
    }
  }

  /** No room key is a prefix of another. */
  lemma RoomKeysPrefixFree()
    ensures forall i, j :: 1 <= i < |RoomNames| && 1 <= j < |RoomNames| && i != j ==>
      !StartsWith(RoomNames[i].0, RoomNames[j].0)
  {
    forall i, j | 1 <= i < |RoomNames| && 1 <= j < |RoomNames| && i != j
      ensures !StartsWith(RoomNames[i].0, RoomNames[j].0)
    {
      var ki, kj := RoomNames[i].0, RoomNames[j].0;
      var at := if (i == 5 && j == 11) || (i == 11 && j == 5) || (i == 1 && j == 12) || (i == 12 && j == 1) then 1 else 0;
      assert i == 1 || i == 2 || i == 3 || i == 4 || i == 5 || i == 6 || i == 7 || i == 8
        || i == 9 || i == 10 || i == 11 || i == 12;
      assert j == 1 || j == 2 || j == 3 || j == 4 || j == 5 || j == 6 || j == 7 || j == 8
        || j == 9 || j == 10 || j == 11 || j == 12;
      assert at < |kj| && at < |ki| && ki[at] != kj[at];
      if |kj| <= |ki| {
        assert ki[..|kj|][at] == ki[at];
      }
    }
  }

  lemma PrefixOfTailChars(t: string, k: string)
    requires StartsWith(t, k) && AllTailChars(t)
    ensures AllTailChars(k)
  {
    forall i | 0 <= i < |k| ensures IsTailChar(k[i]) {
      assert k[i] == t[i];
    }
  }

  /** With no room key in front, no key of the table fits. */
  lemma NoKeyFitsNumberTail(s2: bool, n: Option<string>, a: Option<nat>)
    requires IsDigitCapture(n)
    ensures FirstKey(Keys(RoomNames), NumberTail(s2, n, a), RoomKeyMatches).None?
  {
    var v := NumberTail(s2, n, a);
    var keys := Keys(RoomNames);
    NumberTailChars(s2, n, a);
    RoomKeysForeign();
    forall j | 0 <= j < |keys| ensures !Fits(keys[j], v, RoomKeyMatches) {
      if j >= 1 && StartsWith(v, keys[j]) {
        PrefixOfTailChars(v, keys[j]);
      }
    }
  }

  /** Two prefixes of one text: one is a prefix of the other. */
  lemma PrefixesNest(t: string, x: string, y: string)
    ensures StartsWith(t, x) && StartsWith(t, y) ==> StartsWith(x, y) || StartsWith(y, x)
  {
    if StartsWith(t, x) && StartsWith(t, y) {
      if |y| <= |x| {
        assert x[..|y|] == t[..|y|];
      } else {
        assert y[..|x|] == t[..|x|];
      }
    }
  }

  /** Two different keys cannot both begin the same text. */
  lemma OneKeyBegins(t: string, i: nat, j: nat)
    requires 1 <= i < |RoomNames| && 1 <= j < |RoomNames| && i != j
    requires StartsWith(t, RoomNames[i].0)
    ensures !StartsWith(t, RoomNames[j].0)
  {
    RoomKeysPrefixFree();
    PrefixesNest(t, RoomNames[i].0, RoomNames[j].0);
  }

  /** Room key `i` in front of a tail the rest of the pattern reads as `x`. */
  lemma RoomPartOf(v: string, i: nat, t: string, x: (Option<string>, Option<string>))
    requires IsRoomIndex(i) && v == RoomNames[i].0 + t && SecondSpace(t) == Some(x)
    ensures RoomPart(v) == Some(Rest(Some(i), x.0, x.1))
  {
    var keys := Keys(RoomNames);
    assert v[..|keys[i]|] == keys[i] && v[|keys[i]|..] == t;
    forall j | 0 <= j < i ensures !Fits(keys[j], v, RoomKeyMatches) {
      if j >= 1 {
        OneKeyBegins(v, i, j);
      }
    }
    FirstKeyIs(keys, v, RoomKeyMatches, i);
  }

  /** No room key fits, and the rest of the pattern reads the text as `x`. */
  lemma RoomPartNoKey(v: string, x: (Option<string>, Option<string>))
    requires FirstKey(Keys(RoomNames), v, RoomKeyMatches).None? && SecondSpace(v) == Some(x)
    ensures RoomPart(v) == Some(Rest(None, x.0, x.1))
  {
  }

  lemma RoomPartExact(r: Option<nat>, s2: bool, n: Option<string>, a: Option<nat>)
    requires IsRoomChoice(r) && IsDigitCapture(n) && IsArea(a)
    ensures RoomPart(RoomTail(r, s2, n, a)) == Some(Rest(r, n, AreaCapture(a)))
  {
    SecondSpaceExact(s2, n, a);
    if r.Some? {
      RoomPartOf(RoomTail(r, s2, n, a), r.value, NumberTail(s2, n, a), (n, AreaCapture(a)));
    } else {
      NoKeyFitsNumberTail(s2, n, a);
      RoomPartNoKey(RoomTail(r, s2, n, a), (n, AreaCapture(a)));
    }
  }

  lemma RoomPartSound(v: string) returns (r: Option<nat>, s2: bool, n: Option<string>, a: Option<nat>)
    requires RoomPart(v).Some?
    ensures IsRoomChoice(r) && IsDigitCapture(n) && IsArea(a)
    ensures v == RoomTail(r, s2, n, a) && RoomPart(v).value == Rest(r, n, AreaCapture(a))
  {
    var keys := Keys(RoomNames);
    var first := FirstKey(keys, v, RoomKeyMatches);
    if first.Some? {
      var k := keys[first.value];
      s2, n, a := SecondSpaceSound(v[|k|..]);
      r := first;
      assert v == k + v[|k|..];
    } else {
      s2, n, a := SecondSpaceSound(v);
      r := None;
    }
  }

  lemma RoomTailSpace(r: Option<nat>, s2: bool, n: Option<string>, a: Option<nat>)
    requires IsRoomChoice(r) && IsDigitCapture(n)
    ensures StartsWith(RoomTail(r, s2, n, a), " ") <==> r.None? && s2
  {
    var t := RoomTail(r, s2, n, a);
    if r.Some? {
      assert t[0] == RoomNames[r.value].0[0];
      RoomKeyNoSpace(r.value);
    } else if !s2 {
      assert t == NumberTail(false, n, a);
      NumberTailStart(n, a);
    }
    if t != [] {
      assert t[..1] == [t[0]];
    }
  }

  lemma RoomKeyNoSpace(i: nat)
    requires IsRoomIndex(i)
    ensures RoomNames[i].0[0] != ' '
  {
    assert i == 1 || i == 2 || i == 3 || i == 4 || i == 5 || i == 6 || i == 7 || i == 8
      || i == 9 || i == 10 || i == 11 || i == 12;
  }

  /** The optional space after the building, in front of a tail `t` that
      reads as `x` with or without its own leading space. */
  lemma FirstSpaceOf(s1: bool, t: string, x: Rest)
    requires RoomPart(t) == Some(x)
    requires !s1 && StartsWith(t, " ") ==> RoomPart(t[1..]) == Some(x)
    ensures FirstSpace(Space(s1) + t) == Some(x)
  {
    if s1 {
      assert (" " + t)[1..] == t;
    } else {
      assert Space(s1) + t == t;
    }
  }

  lemma RoomTailDropSpace(n: Option<string>, a: Option<nat>)
    ensures RoomTail(None, true, n, a)[1..] == RoomTail(None, false, n, a)
  {
    var w := n.GetOr("") + AreaText(a);
    NumberTailSplit(true, n, a);
    NumberTailSplit(false, n, a);
    DropSpace(w);
  }

  lemma DropSpace(w: string)
    ensures ("" + (" " + w))[1..] == "" + w
  {
    assert "" + (" " + w) == " " + w;
    assert "" + w == w;
  }

  /** A space after the building is taken by the first ` ?` when the rest
      still matches; either way the captures are those of the tail. */
  lemma FirstSpaceExact(s1: bool, r: Option<nat>, s2: bool, n: Option<string>, a: Option<nat>)
    requires IsRoomChoice(r) && IsDigitCapture(n) && IsArea(a)
    ensures FirstSpace(Space(s1) + RoomTail(r, s2, n, a)) == Some(Rest(r, n, AreaCapture(a)))
  {
    RoomPartExact(r, s2, n, a);
    RoomTailSpace(r, s2, n, a);
    if r.None? && s2 {
      RoomTailDropSpace(n, a);
      RoomPartExact(None, false, n, a);
    }
    FirstSpaceOf(s1, RoomTail(r, s2, n, a), Rest(r, n, AreaCapture(a)));
  }

  lemma FirstSpaceSound(v: string) returns (s1: bool, r: Option<nat>, s2: bool, n: Option<string>, a: Option<nat>)
    requires FirstSpace(v).Some?
    ensures IsRoomChoice(r) && IsDigitCapture(n) && IsArea(a)
    ensures v == Space(s1) + RoomTail(r, s2, n, a) && FirstSpace(v).value == Rest(r, n, AreaCapture(a))
  {
    if StartsWith(v, " ") && RoomPart(v[1..]).Some? {
      s1 := true;
      r, s2, n, a := RoomPartSound(v[1..]);
      assert v == " " + v[1..];
    } else {
      s1 := false;
      r, s2, n, a := RoomPartSound(v);
    }
  }

  /** `id` is a building key, an optional space, an optional room key, an
      optional space, an optional number and an optional area part. */
  ghost predicate RoomForm(id: string, b: nat, s1: bool, r: Option<nat>, s2: bool, n: Option<string>, a: Option<nat>) {
    && b < |BuildingNames| && IsRoomChoice(r) && IsDigitCapture(n) && IsArea(a)
    && id == BuildingNames[b].0 + Space(s1) + RoomTail(r, s2, n, a)
  }

  /** The long name of the parts, written independently of the matcher. */
  function RoomLongName(b: nat, r: Option<nat>, n: Option<string>, a: Option<nat>): string
    requires b < |BuildingNames| && IsRoomChoice(r)
  {
    var building := BuildingNames[b].1;
    (if building == "" then "" else building + " ")
      + (match r case None => "" case Some(i) => RoomNames[i].1)
      + (match n case None => "" case Some(d) => " " + d)
      + (match a case None => "" case Some(k) => " 0-" + Nines(k))
  }

  lemma BuildingKeysSingle()
    ensures forall b :: 0 <= b < |BuildingNames| ==> |BuildingNames[b].0| == 1
    ensures forall b, c :: 0 <= b < c < |BuildingNames| ==> BuildingNames[b].0 != BuildingNames[c].0
  {
  }

  /** An id that starts with building `b`'s key starts with no earlier key. */
  lemma BuildingSplit(id: string, b: nat, rest: string)
    requires b < |BuildingNames| && id == BuildingNames[b].0 + rest
    ensures var keys := Keys(BuildingNames);
      StartsWith(id, keys[b]) && id[|keys[b]|..] == rest
      && forall j :: 0 <= j < b ==> !StartsWith(id, keys[j])
  {
    BuildingKeysSingle();
    assert id[..1] == BuildingNames[b].0;
  }

  lemma MatchRoomOf(id: string, b: nat, x: Rest)
    requires b < |BuildingNames| && FirstKey(Keys(BuildingNames), id, FirstSpaceMatches) == Some(b)
    requires FirstSpace(id[|BuildingNames[b].0|..]) == Some(x)
    ensures MatchRoom(id) == Some(RoomMatch(b, x))
  {
  }

  /** A building key, then a text the rest of the pattern reads as `x`. */
  lemma MatchRoomByParts(id: string, b: nat, rest: string, x: Rest)
    requires b < |BuildingNames| && id == BuildingNames[b].0 + rest && FirstSpace(rest) == Some(x)
    ensures MatchRoom(id) == Some(RoomMatch(b, x))
  {
    BuildingSplit(id, b, rest);
    FirstKeyByPrefix(Keys(BuildingNames), id, FirstSpaceMatches, b);
    MatchRoomOf(id, b, x);
  }

  /** The text after the building key, and how the rest of the pattern reads it. */
  lemma RoomFormParts(id: string, b: nat, s1: bool, r: Option<nat>, s2: bool, n: Option<string>, a: Option<nat>)
    returns (rest: string)
    requires RoomForm(id, b, s1, r, s2, n, a)
    ensures b < |BuildingNames| && id == BuildingNames[b].0 + rest
    ensures FirstSpace(rest) == Some(Rest(r, n, AreaCapture(a)))
  {
    rest := Space(s1) + RoomTail(r, s2, n, a);
    FirstSpaceExact(s1, r, s2, n, a);
    RoomFormId(id, b, s1, r, s2, n, a);
  }

  lemma RoomFormId(id: string, b: nat, s1: bool, r: Option<nat>, s2: bool, n: Option<string>, a: Option<nat>)
    requires RoomForm(id, b, s1, r, s2, n, a)
    ensures id == BuildingNames[b].0 + (Space(s1) + RoomTail(r, s2, n, a))
  {
    Assoc(BuildingNames[b].0, Space(s1), RoomTail(r, s2, n, a));
  }

  lemma MatchRoomExact(id: string, b: nat, s1: bool, r: Option<nat>, s2: bool, n: Option<string>, a: Option<nat>)
    requires RoomForm(id, b, s1, r, s2, n, a)
    ensures MatchRoom(id) == Some(RoomMatch(b, Rest(r, n, AreaCapture(a))))
  {
    var rest := RoomFormParts(id, b, s1, r, s2, n, a);
    MatchRoomByParts(id, b, rest, Rest(r, n, AreaCapture(a)));
  }

  lemma MatchRoomSound(id: string) returns (b: nat, s1: bool, r: Option<nat>, s2: bool, n: Option<string>, a: Option<nat>)
    requires MatchRoom(id).Some?
    ensures RoomForm(id, b, s1, r, s2, n, a)
    ensures MatchRoom(id) == Some(RoomMatch(b, Rest(r, n, AreaCapture(a))))
  {
    var keys := Keys(BuildingNames);
    b := MatchRoom(id).value.building;
    var k := keys[b];
    var rest := id[|k|..];
    assert FirstKey(keys, id, FirstSpaceMatches) == Some(b);
    assert MatchRoom(id) == Some(RoomMatch(b, FirstSpace(rest).value));
    s1, r, s2, n, a := FirstSpaceSound(rest);
    JoinAtPrefix(id, k, Space(s1), RoomTail(r, s2, n, a));
  }

  lemma JoinAtPrefix(t: string, x: string, y: string, z: string)
    requires StartsWith(t, x) && t[|x|..] == y + z
    ensures t == x + y + z
  {
    assert t == t[..|x|] + t[|x|..];
  }

  /** The pattern matches exactly the ids that decompose into the parts. */
  lemma MatchRoomExactly(id: string)
    ensures MatchRoom(id).Some? <==> exists b: nat, s1, r, s2, n, a :: RoomForm(id, b, s1, r, s2, n, a)
  {
    if MatchRoom(id).Some? {
      var b, s1, r, s2, n, a := MatchRoomSound(id);
    }
    if exists b: nat, s1, r, s2, n, a :: RoomForm(id, b, s1, r, s2, n, a) {
      var b: nat, s1, r, s2, n, a :| RoomForm(id, b, s1, r, s2, n, a);
      MatchRoomExact(id, b, s1, r, s2, n, a);
    }
  }

  /** The long name of an id from the captures it matched with. */
  lemma ParseRoomOfMatch(id: string, b: nat, r: Option<nat>, n: Option<string>, a: Option<nat>)
    requires b < |BuildingNames| && IsRoomChoice(r)
    requires MatchRoom(id) == Some(RoomMatch(b, Rest(r, n, AreaCapture(a))))
    ensures ParseRoom(id) == RoomLongName(b, r, n, a)
  {
    DescribeParts(b, r, n, a);
  }

  lemma DescribeParts(b: nat, r: Option<nat>, n: Option<string>, a: Option<nat>)
    requires b < |BuildingNames| && IsRoomChoice(r)
    ensures Describe(RoomMatch(b, Rest(r, n, AreaCapture(a)))) == RoomLongName(b, r, n, a)
  {
    EmptyRoomName();
  }

  lemma EmptyRoomName()
    ensures Rendered(Lookup(RoomNames, "")) == ""
  {
    assert Lookup(RoomNames, "") == Some("");
  }

  /** Whatever way the spaces are read, the long name is that of the parts. */
  lemma ParseRoomExact(id: string, b: nat, s1: bool, r: Option<nat>, s2: bool, n: Option<string>, a: Option<nat>)
    requires RoomForm(id, b, s1, r, s2, n, a)
    ensures ParseRoom(id) == RoomLongName(b, r, n, a)
  {
    MatchRoomExact(id, b, s1, r, s2, n, a);
    ParseRoomOfMatch(id, b, r, n, a);
  }

  /** An id with no decomposition is its own long name. */
  lemma ParseRoomUnmatched(id: string)
    requires forall b: nat, s1, r, s2, n, a :: !RoomForm(id, b, s1, r, s2, n, a)
    ensures ParseRoom(id) == id
  {
    MatchRoomExactly(id);
  }

  /** A room id read as given parts has the long name `long` of those parts. */
  lemma ParseRoomAs(id: string, b: nat, s1: bool, r: Option<nat>, s2: bool, n: Option<string>, a: Option<nat>, long: string)
    requires RoomForm(id, b, s1, r, s2, n, a) && RoomLongName(b, r, n, a) == long
    ensures ParseRoom(id) == long
  {
    ParseRoomExact(id, b, s1, r, s2, n, a);
  }

  lemma BSp3Parts(id: string)
    requires id == "BSp3"
    ensures RoomForm(id, 2, false, Some(2), false, Some("3"), None)
    ensures RoomLongName(2, Some(2), Some("3"), None) == "Sporthalle 3"
  {
    assert AllDigits("3");
  }

  /** `BSp3`: building `B` adds nothing, then the sports hall and its number. */
  lemma BSp3Example(id: string)
    requires id == "BSp3"
    ensures ParseRoom(id) == "Sporthalle 3"
  {
    BSp3Parts(id);
    ParseRoomAs(id, 2, false, Some(2), false, Some("3"), None, "Sporthalle 3");
  }

  lemma L101Parts(id: string)
    requires id == "L101"
    ensures RoomForm(id, 1, false, None, false, Some("101"), None)
    ensures RoomLongName(1, None, Some("101"), None) == "Lichthof  101"
  {
    assert AllDigits("101");
  }

  /** `L101`: no room key, so the empty room name sits between two spaces. */
  lemma L101Example(id: string)
    requires id == "L101"
    ensures ParseRoom(id) == "Lichthof  101"
  {
    L101Parts(id);
    ParseRoomAs(id, 1, false, None, false, Some("101"), None, "Lichthof  101");
  }

  lemma FParts(id: string)
    requires id == "F"
    ensures RoomForm(id, 0, false, None, false, None, None)
    ensures RoomLongName(0, None, None, None) == "Forum "
  {
  }

  /** `F`: the building alone, with its trailing space. */
  lemma FExample(id: string)
    requires id == "F"
    ensures ParseRoom(id) == "Forum "
  {
    FParts(id);
    ParseRoomAs(id, 0, false, None, false, None, None, "Forum ");
  }

  lemma BParts(id: string)
    requires id == "B"
    ensures RoomForm(id, 2, false, None, false, None, None)
    ensures RoomLongName(2, None, None, None) == ""
  {
  }

  /** `B`: a building without a name and nothing else gives the empty text. */
  lemma BExample(id: string)
    requires id == "B"
    ensures ParseRoom(id) == ""
  {
    BParts(id);
    ParseRoomAs(id, 2, false, None, false, None, None, "");
  }

  /** The only room key that starts with a digit starts with `2`. */
  lemma RoomKeyStart(i: nat)
    requires IsRoomIndex(i)
    ensures !IsDigit(RoomNames[i].0[0]) || RoomNames[i].0[0] == '2'
  {
    assert i == 1 || i == 2 || i == 3 || i == 4 || i == 5 || i == 6 || i == 7 || i == 8
      || i == 9 || i == 10 || i == 11 || i == 12;
  }

  /** An area part makes the id end in `9`. */
  lemma AreaEndsInNine(id: string, b: nat, s1: bool, r: Option<nat>, s2: bool, n: Option<string>, k: nat)
    requires RoomForm(id, b, s1, r, s2, n, Some(k))
    ensures id[|id| - 1] == '9'
  {
    var t := AreaText(Some(k));
    assert id[|id| - 1] == t[|t| - 1];
  }

  /** Without an area part, an id whose second character is a digit other
      than `2` is a building key followed by digits only. */
  lemma DigitAfterBuilding(id: string, b: nat, s1: bool, r: Option<nat>, s2: bool, n: Option<string>)
    requires RoomForm(id, b, s1, r, s2, n, None)
    requires |id| > 1 && IsDigit(id[1]) && id[1] != '2'
    ensures AllDigits(id[1..])
  {
    var rest := Space(s1) + RoomTail(r, s2, n, None);
    RoomFormId(id, b, s1, r, s2, n, None);
    BuildingKeysSingle();
    DropKey(id, BuildingNames[b].0, rest);
    RestStart(s1, r, s2, n);
    if r.Some? {
      RoomKeyStart(r.value);
    }
  }

  lemma DropKey(id: string, k: string, rest: string)
    requires |k| == 1 && id == k + rest
    ensures id[1..] == rest
  {
  }

  /** How the text after the building key begins. */
  lemma RestStart(s1: bool, r: Option<nat>, s2: bool, n: Option<string>)
    requires IsRoomChoice(r)
    ensures var w := Space(s1) + RoomTail(r, s2, n, None);
      && (s1 ==> w[0] == ' ')
      && (!s1 && r.Some? ==> w[0] == RoomNames[r.value].0[0])
      && (!s1 && r.None? && s2 ==> w[0] == ' ')
      && (!s1 && r.None? && !s2 ==> w == n.GetOr(""))
  {
    var w := Space(s1) + RoomTail(r, s2, n, None);
    if r.Some? {
      assert RoomKey(r) == RoomNames[r.value].0;
    }
  }

  /** `B101BR12`: `(0-9+)` is no character class, so `BR12` is no area and
      the id comes back unchanged. */
  lemma B101BR12Unchanged(id: string)
    requires id == "B101BR12"
    ensures ParseRoom(id) == id
  {
    forall b: nat, s1, r, s2, n, a ensures !RoomForm(id, b, s1, r, s2, n, a) {
      NoFormB101BR12(id, b, s1, r, s2, n, a);
    }
    ParseRoomUnmatched(id);
  }

  lemma NoFormB101BR12(id: string, b: nat, s1: bool, r: Option<nat>, s2: bool, n: Option<string>, a: Option<nat>)
    requires id == "B101BR12"
    ensures !RoomForm(id, b, s1, r, s2, n, a)
  {
    if a.Some? {
      AreaEndsInNineImplies(id, b, s1, r, s2, n, a.value);
    } else {
      DigitAfterBuildingImplies(id, b, s1, r, s2, n);
      assert !IsDigit(id[4]) && id[1..][3] == id[4];
    }
  }

  lemma AreaEndsInNineImplies(id: string, b: nat, s1: bool, r: Option<nat>, s2: bool, n: Option<string>, k: nat)
    ensures RoomForm(id, b, s1, r, s2, n, Some(k)) ==> id[|id| - 1] == '9'
  {
    if RoomForm(id, b, s1, r, s2, n, Some(k)) {
      AreaEndsInNine(id, b, s1, r, s2, n, k);
    }
  }

  lemma DigitAfterBuildingImplies(id: string, b: nat, s1: bool, r: Option<nat>, s2: bool, n: Option<string>)
    ensures RoomForm(id, b, s1, r, s2, n, None) && |id| > 1 && IsDigit(id[1]) && id[1] != '2' ==> AllDigits(id[1..])
  {
    if RoomForm(id, b, s1, r, s2, n, None) && |id| > 1 && IsDigit(id[1]) && id[1] != '2' {
      DigitAfterBuilding(id, b, s1, r, s2, n);
    }
  }

  /** A room: the id as given and the long name fixed when it is made. */
  datatype Room = Room(shortName: string, longName: string)

  /** `new Room(shortName)`. */
  function NewRoom(shortName: string): (room: Room)
    ensures room.shortName == shortName
    ensures room.longName == ParseRoom(shortName)
    ensures forall b: nat, s1, r, s2, n, a :: RoomForm(shortName, b, s1, r, s2, n, a) ==>
      room.longName == RoomLongName(b, r, n, a)
  {
    forall b: nat, s1, r, s2, n, a | RoomForm(shortName, b, s1, r, s2, n, a)
      ensures ParseRoom(shortName) == RoomLongName(b, r, n, a)
    {
      ParseRoomExact(shortName, b, s1, r, s2, n, a);
    }
    Room(shortName, ParseRoom(shortName))
  }
}
