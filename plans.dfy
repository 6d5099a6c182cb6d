/**
 * A day's plan: its date, when it was last updated, the groups it concerns,
 * its messages and its entries. `DayPlan.ts` and `SubstitutionPlan.ts`
 * describe the same record with the same two queries; their constructors
 * copy the five fields, which is what the datatype constructor does.
 */
module Plans {
  import opened Sequences
  import Groups
  import Entries

  datatype Message = Message(subject: string, body: string)

  /** `date` is the ISO date text that parsing produces. */
  datatype DayPlan = DayPlan(
    date: string,
    lastUpdate: string,
    affectedGroups: seq<Groups.Group>,
    messages: seq<Message>,
    entries: seq<Entries.Entry>)
  {
    /** `isAffected`: whether the group is among the affected groups. */
    predicate IsAffected(g: Groups.Group): (r: bool)
      ensures r <==> exists i :: 0 <= i < |affectedGroups| && affectedGroups[i] == g
    {
      g in affectedGroups
    }

    /** `entriesFor`: nothing for a group the plan does not concern, otherwise
        the entries that affect the group, in plan order. */
    function EntriesFor(g: Groups.Group): (r: seq<Entries.Entry>)
      ensures !IsAffected(g) ==> r == []
      ensures IsSubsequence(r, entries)
      ensures forall k :: 0 <= k < |r| ==> r[k].Affects(g)
      ensures IsAffected(g) ==> forall e :: multiset(r)[e] == if e.Affects(g) then multiset(entries)[e] else 0
    {
      if !IsAffected(g) then [] else Affecting(entries, g)
    }
  }

  type SubstitutionPlan = DayPlan

  /** `entries.filter(e => e.affects(g))`. */
  function Affecting(es: seq<Entries.Entry>, g: Groups.Group): (r: seq<Entries.Entry>)
    ensures IsSubsequence(r, es)
    ensures forall k :: 0 <= k < |r| ==> r[k].Affects(g)
    ensures forall e :: multiset(r)[e] == if e.Affects(g) then multiset(es)[e] else 0
  {
    if es == [] then []
    else
      assert es == [es[0]] + es[1..];
      if es[0].Affects(g) then [es[0]] + Affecting(es[1..], g)
      else Affecting(es[1..], g)
  }

  /** Filtering a list without repeats gives a list without repeats. */
  lemma {:induction false} AffectingDistinct(es: seq<Entries.Entry>, g: Groups.Group)
    requires NoDuplicates(es)
    ensures NoDuplicates(Affecting(es, g))
  {
    if es != [] {
      FirstNotInTail(es);
      AffectingDistinct(es[1..], g);
      if es[0].Affects(g) {
        var rest := Affecting(es[1..], g);
        assert multiset(rest)[es[0]] == 0;
        ConsDistinct(es[0], rest);
      }
    }
  }

  /** An entry is kept exactly when it is in the list and affects the group. */
  lemma {:induction false} AffectingMembers(es: seq<Entries.Entry>, g: Groups.Group, e: Entries.Entry)
    ensures e in Affecting(es, g) <==> e in es && e.Affects(g)
  {
    if es != [] {
      AffectingMembers(es[1..], g, e);
      assert es == [es[0]] + es[1..];
    }
  }

  /** When every entry affects the group, none is dropped. */
  lemma {:induction false} AffectingAll(es: seq<Entries.Entry>, g: Groups.Group)
    requires forall k :: 0 <= k < |es| ==> es[k].Affects(g)
    ensures Affecting(es, g) == es
  {
    if es != [] {
      AffectingAll(es[1..], g);
      assert es == [es[0]] + es[1..];
    }
  }

  /** For a group the plan concerns, an entry is listed exactly when it is in
      the plan and affects the group; none that affects the group is dropped. */
  lemma EntriesForMembers(plan: DayPlan, g: Groups.Group, e: Entries.Entry)
    ensures e in plan.EntriesFor(g) <==> plan.IsAffected(g) && e in plan.entries && e.Affects(g)
  {
    AffectingMembers(plan.entries, g, e);
  }

  // ------------------------------------------------- object identity, as written

  /** A `Group` object: the group it holds and the reference that
      `includes` compares. */
  datatype GroupObject = GroupObject(ref: nat, group: Groups.Group)

  /** `codes.map(g => new Group(...))`: one new object per group, with the
      references `next`, `next + 1`, ... in order. */
  function NewGroups(next: nat, gs: seq<Groups.Group>): (r: seq<GroupObject>)
    ensures |r| == |gs|
    ensures forall k :: 0 <= k < |r| ==> r[k].group == gs[k] && next <= r[k].ref < next + |gs|
  {
    seq(|gs|, k requires 0 <= k < |gs| => GroupObject(next + k, gs[k]))
  }

  /** The group objects of the rows' entries, each row's `parseGroups` call
      allocating after the one before it, the first from `next`. */
  function NewEntryGroups(next: nat, gss: seq<seq<Groups.Group>>): (r: seq<seq<GroupObject>>)
    ensures |r| == |gss|
    ensures forall k :: 0 <= k < |r| ==> |r[k]| == |gss[k]|
    ensures forall k, j :: 0 <= k < |r| && 0 <= j < |r[k]| ==> r[k][j].group == gss[k][j] && r[k][j].ref >= next
    decreases |gss|
  {
    if gss == [] then []
    else [NewGroups(next, gss[0])] + NewEntryGroups(next + |gss[0]|, gss[1..])
  }

  /** The positions of the entries whose groups hold the object `g`. */
  function Holding(entryGroups: seq<seq<GroupObject>>, g: GroupObject): (r: seq<nat>)
    ensures forall k :: 0 <= k < |r| ==> r[k] < |entryGroups| && g in entryGroups[r[k]]
    ensures forall k :: 0 <= k < |entryGroups| && g in entryGroups[k] ==> k in r
  {
    if entryGroups == [] then []
    else
      var n := |entryGroups| - 1;
      var rest := Holding(entryGroups[..n], g);
      if g in entryGroups[n] then rest + [n] else rest
  }

  /** `entriesFor` as written, on object references: nothing when `g` is not
      one of the affected objects, otherwise the positions of the entries
      whose groups hold that very object. */
  function EntriesForByReference(affected: seq<GroupObject>, entryGroups: seq<seq<GroupObject>>, g: GroupObject): (r: seq<nat>)
    ensures g !in affected ==> r == []
    ensures forall k :: 0 <= k < |r| ==> r[k] < |entryGroups| && g in entryGroups[r[k]]
    ensures g in affected ==> forall k :: 0 <= k < |entryGroups| && g in entryGroups[k] ==> k in r
  {
    if g !in affected then [] else Holding(entryGroups, g)
  }

  /** No entry holding `g`, no position. */
  lemma HoldingNone(entryGroups: seq<seq<GroupObject>>, g: GroupObject)
    requires forall k :: 0 <= k < |entryGroups| ==> g !in entryGroups[k]
    ensures Holding(entryGroups, g) == []
  {
  }

  /**
   * As written, `entriesFor` of a parsed plan is empty for every group
   * object. The affected groups are new objects, the entries' groups are
   * new objects made after them, and `includes` compares references, so no
   * object is both affected and held by an entry.
   */
  lemma ParsedEntriesForEmpty(next: nat, affected: seq<Groups.Group>, entryGroups: seq<seq<Groups.Group>>, g: GroupObject)
    ensures EntriesForByReference(NewGroups(next, affected), NewEntryGroups(next + |affected|, entryGroups), g) == []
  {
    var objects := NewGroups(next, affected);
    var held := NewEntryGroups(next + |affected|, entryGroups);
    if g in objects {
      assert g.ref < next + |affected|;
      forall k | 0 <= k < |held| ensures g !in held[k] {
        forall j | 0 <= j < |held[k]| ensures held[k][j] != g {
          assert held[k][j].ref >= next + |affected|;
        }
      }
      HoldingNone(held, g);
    }
  }
}
