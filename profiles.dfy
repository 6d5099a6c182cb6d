/**
 * The profile-group code shared by groups and classes: a semester, an
 * underscore, a profile key and an optional space-separated number, as the
 * regular expression `^(S1\/2|S3\/4)_(KEY|KEY|...)(?: ([0-9]+))?$` reads it,
 * with the keys in the order of the profile table.
 */
module Profiles {
  import opened Wrappers
  import opened Text

  const Semesters: seq<string> := ["S1/2", "S3/4"]

  datatype ProfileMatch = ProfileMatch(semester: string, profile: nat, number: Option<string>)

  /** `(?: ([0-9]+))?$`: the optional group is tried first, then skipped. */
  function NumberTail(t: string): (r: Option<Option<string>>)
  {
    var inGroup :=
      if StartsWith(t, " ") then
        var u := t[1..];
        match GreedyRun(u, DigitRun(u), AtEnd)
        case Some(k) => Some(Some(u[..k]))
        case None => None
      else None;
    if inGroup.Some? then inGroup
    else if t == "" then Some(None)
    else None
  }

  /** The text a matched number part stands for. */
  function NumberText(n: Option<string>): string {
    match n
    case None => ""
    case Some(d) => " " + d
  }

  lemma NumberTailSound(t: string)
    requires NumberTail(t).Some?
    ensures t == NumberText(NumberTail(t).value) && IsDigitCapture(NumberTail(t).value)
  {
    if StartsWith(t, " ") {
      var u := t[1..];
      var r := GreedyRun(u, DigitRun(u), AtEnd);
      if r.Some? {
        var k := r.value;
        assert u[..k] == u[..DigitRun(u)][..k];
        assert u == u[..k];
        assert t == " " + u;
      }
    }
  }

  lemma NumberTailComplete(n: Option<string>)
    requires IsDigitCapture(n)
    ensures NumberTail(NumberText(n)) == Some(n)
  {
    if n.Some? {
      var t := NumberText(n);
      var u := t[1..];
      assert u == n.value;
      assert DigitRun(u) == |u|;
      assert AtEnd(u[|u|..]);
      assert GreedyRun(u, |u|, AtEnd) == Some(|u|);
      assert u[..|u|] == u;
      assert StartsWith(t, " ");
    }
  }

  predicate NumberTailMatches(k: string, v: string) {
    NumberTail(v).Some?
  }

  /** `_`, a profile key and the number tail, after the semester. */
  function AfterSemester(keys: seq<string>, rest: string): (r: Option<(nat, Option<string>)>)
  {
    if !StartsWith(rest, "_") then None
    else
      var u := rest[1..];
      match FirstKey(keys, u, NumberTailMatches)
      case None => None
      case Some(i) => Some((i, NumberTail(u[|keys[i]|..]).value))
  }

  /** The whole pattern; the disjunction `S1\/2|S3\/4` tries its left alternative first. */
  function MatchProfile(table: Table, name: string): (r: Option<ProfileMatch>)
    ensures r.Some? ==> r.value.profile < |table|
  {
    var keys := Keys(table);
    var sem :=
      if StartsWith(name, "S1/2") && AfterSemester(keys, name[4..]).Some? then "S1/2"
      else if StartsWith(name, "S3/4") && AfterSemester(keys, name[4..]).Some? then "S3/4"
      else "";
    if sem == "" then None
    else
      var (p, n) := AfterSemester(keys, name[4..]).value;
      Some(ProfileMatch(sem, p, n))
  }

  /** `name` is a semester, `_`, the key of profile `p` and a number part. */
  ghost predicate ProfileForm(table: Table, name: string, sem: string, p: nat, n: Option<string>) {
    && (sem == "S1/2" || sem == "S3/4") && p < |table| && IsDigitCapture(n)
    && name == sem + "_" + table[p].0 + NumberText(n)
  }

  lemma AfterSemesterSound(keys: seq<string>, rest: string)
    requires AfterSemester(keys, rest).Some?
    ensures var (p, n) := AfterSemester(keys, rest).value;
      p < |keys| && IsDigitCapture(n) && rest == "_" + keys[p] + NumberText(n)
  {
    var u := rest[1..];
    var j := FirstKey(keys, u, NumberTailMatches).value;
    var w := u[|keys[j]|..];
    assert rest == "_" + u;
    assert u == keys[j] + w;
    NumberTailSound(w);
    Assoc("_", keys[j], w);
  }

  /** Every match is a decomposition of the code. */
  lemma MatchProfileSound(table: Table, name: string)
    requires MatchProfile(table, name).Some?
    ensures var m := MatchProfile(table, name).value;
      ProfileForm(table, name, m.semester, m.profile, m.number)
  {
    var keys := Keys(table);
    var m := MatchProfile(table, name).value;
    var rest := name[4..];
    assert name == m.semester + rest;
    AfterSemesterSound(keys, rest);
    ProfileJoin(name, m.semester, rest, keys[m.profile], m.number);
  }

  lemma ProfileJoin(name: string, sem: string, rest: string, k: string, n: Option<string>)
    requires name == sem + rest && rest == "_" + k + NumberText(n)
    ensures name == sem + "_" + k + NumberText(n)
  {
  }

  lemma AfterSemesterComplete(keys: seq<string>, p: nat, n: Option<string>)
    requires p < |keys| && IsDigitCapture(n)
    ensures AfterSemester(keys, "_" + keys[p] + NumberText(n)).Some?
  {
    var t := keys[p] + NumberText(n);
    Assoc("_", keys[p], NumberText(n));
    SplitAt("_", t);
    SplitAt(keys[p], NumberText(n));
    NumberTailComplete(n);
    assert Fits(keys[p], t, NumberTailMatches);
  }

  /** Every decomposition is found: the code matches exactly when it has the form. */
  lemma MatchProfileComplete(table: Table, name: string, sem: string, p: nat, n: Option<string>)
    requires ProfileForm(table, name, sem, p, n)
    ensures MatchProfile(table, name).Some?
  {
    var keys := Keys(table);
    var r := keys[p] + NumberText(n);
    Assoc(sem + "_", keys[p], NumberText(n));
    SemesterSplit(name, sem, r);
    Assoc("_", keys[p], NumberText(n));
    AfterSemesterComplete(keys, p, n);
  }

  /** The pattern matches exactly the codes of the profile form. */
  lemma MatchProfileExactly(table: Table, name: string)
    ensures MatchProfile(table, name).Some? <==> exists sem, p, n :: ProfileForm(table, name, sem, p, n)
  {
    if MatchProfile(table, name).Some? {
      MatchProfileSound(table, name);
    }
    if exists sem, p, n :: ProfileForm(table, name, sem, p, n) {
      var sem, p, n :| ProfileForm(table, name, sem, p, n);
      MatchProfileComplete(table, name, sem, p, n);
    }
  }

  /** `parseGroupName` / `parseClassName`: semester, a space and the profile's
      long name, then a space and the number when there is one; a code that
      does not match comes back unchanged. */
  function ParseProfileName(table: Table, name: string): (r: string)
    ensures MatchProfile(table, name).None? ==> r == name
  {
    match MatchProfile(table, name)
    case None => name
    case Some(m) => m.semester + " " + table[m.profile].1 + NumberText(m.number)
  }

  predicate NoSpace(s: string) {
    forall i :: 0 <= i < |s| ==> s[i] != ' '
  }

  /** Where a shorter key ends, a longer one would have to hold the number part's space. */
  lemma ShorterKeyMeetsSpace(k: string, n: Option<string>, k': string, n': Option<string>)
    requires k + NumberText(n) == k' + NumberText(n') && |k| < |k'|
    ensures !NoSpace(k')
  {
    var u := k + NumberText(n);
    assert u[|k|] == k'[|k|];
    assert u[|k|] == NumberText(n)[0];
  }

  /** A key without spaces followed by a number part can be read back in one way only. */
  lemma KeyNumberUnique(k: string, n: Option<string>, k': string, n': Option<string>)
    requires NoSpace(k) && NoSpace(k')
    requires k + NumberText(n) == k' + NumberText(n')
    ensures k == k' && n == n'
  {
    if |k| < |k'| {
      ShorterKeyMeetsSpace(k, n, k', n');
      assert false;
    }
    if |k'| < |k| {
      ShorterKeyMeetsSpace(k', n', k, n);
      assert false;
    }
    var u := k + NumberText(n);
    assert k == u[..|k|] == k';
    assert NumberText(n) == u[|k|..] == NumberText(n');
    if n.Some? || n'.Some? {
      assert n.Some? && n'.Some?;
      assert n.value == NumberText(n)[1..] == n'.value;
    }
  }

  /** The keys of a table: no spaces, each listed once. */
  ghost predicate WellFormed(table: Table) {
    && (forall q :: 0 <= q < |table| ==> NoSpace(table[q].0))
    && (forall q, q' :: 0 <= q < q' < |table| ==> table[q].0 != table[q'].0)
  }

  /** A code of the profile form gets the long name built from its parts:
      semester, space, the profile's long name, and the number part. */
  lemma ParseProfileNameMatched(table: Table, name: string, sem: string, p: nat, n: Option<string>)
    requires WellFormed(table)
    requires ProfileForm(table, name, sem, p, n)
    ensures ParseProfileName(table, name) == sem + " " + table[p].1 + NumberText(n)
  {
    MatchProfileComplete(table, name, sem, p, n);
    MatchProfileSound(table, name);
    var m := MatchProfile(table, name).value;
    SameProfileForm(table, name, sem, p, n, m.semester, m.profile, m.number);
  }

  lemma SameProfileForm(table: Table, name: string, sem: string, p: nat, n: Option<string>,
                        sem': string, p': nat, n': Option<string>)
    requires WellFormed(table)
    requires ProfileForm(table, name, sem, p, n) && ProfileForm(table, name, sem', p', n')
    ensures sem == sem' && p == p' && n == n'
  {
    FormParts(table, name, sem, p, n);
    FormParts(table, name, sem', p', n');
    KeyNumberUnique(table[p].0, n, table[p'].0, n');
    DistinctKeys(table, p, p');
  }

  /** The semester is the first four characters, the key and number part come after the `_`. */
  lemma FormParts(table: Table, name: string, sem: string, p: nat, n: Option<string>)
    requires ProfileForm(table, name, sem, p, n)
    ensures sem == name[..4] && table[p].0 + NumberText(n) == name[5..]
  {
    var r := table[p].0 + NumberText(n);
    Assoc(sem + "_", table[p].0, NumberText(n));
    SemesterSplit(name, sem, r);
  }

  /** A four-character semester and `_` in front of the rest. */
  lemma SemesterSplit(name: string, sem: string, r: string)
    requires |sem| == 4 && name == sem + "_" + r
    ensures sem == name[..4] && r == name[5..] && name[4..] == "_" + r
  {
    Assoc(sem, "_", r);
    SplitAt(sem, "_" + r);
    SplitAt("_", r);
  }

  lemma SplitAt(x: string, y: string)
    ensures (x + y)[..|x|] == x && (x + y)[|x|..] == y
  {
  }

  lemma DistinctKeys(table: Table, p: nat, p': nat)
    requires WellFormed(table) && p < |table| && p' < |table|
    requires table[p].0 == table[p'].0
    ensures p == p'
  {
  }
}
