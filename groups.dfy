/** Groups of students: a profile-group code such as `S1/2_Nat` and its long name. */
module Groups {
  import opened Wrappers
  import opened Profiles
  import opened Text

  /** The profile table, keys in the order the alternation tries them. */
  const GroupProfiles: Table := [
    ("Nat", "NuT-Profil"),
    ("Fort", "Biologieprofil"),
    ("Ku", "Kunstprofil"),
    ("Le", "Geschichtsprofil"),
    ("LeD", "Geschichtsprofil"),
    ("LeE", "History-Profil"),
    ("Spr", "Sprachen/PGW-Profil"),
    ("Sp", "Sportprofil")
  ]

  /** A group keeps only its short name; the long name is derived on every read. */
  datatype Group = Group(shortName: string) {
    function LongName(): string {
      ParseProfileName(GroupProfiles, shortName)
    }
  }

  lemma GroupProfilesWellFormed()
    ensures WellFormed(GroupProfiles)
  {
  }

  /** A code that does not match the profile pattern is its own long name. */
  lemma LongNameUnmatched(g: Group)
    requires forall sem, p, n :: !ProfileForm(GroupProfiles, g.shortName, sem, p, n)
    ensures g.LongName() == g.shortName
  {
    MatchProfileExactly(GroupProfiles, g.shortName);
  }

  /** A code of the form semester `_` key, optionally followed by a space and
      digits, reads as semester, space, profile name and the number part. */
  lemma LongNameMatched(g: Group, sem: string, p: nat, n: Option<string>)
    requires ProfileForm(GroupProfiles, g.shortName, sem, p, n)
    ensures g.LongName() == sem + " " + GroupProfiles[p].1 + NumberText(n)
  {
    GroupProfilesWellFormed();
    ParseProfileNameMatched(GroupProfiles, g.shortName, sem, p, n);
  }

  /** `S3/4_LeE 1`: `Le` is tried first, but only `LeE` lets the rest match. */
  lemma LeEBacktracks(g: Group)
    requires g.shortName == "S3/4_LeE 1"
    ensures g.LongName() == "S3/4 History-Profil 1"
  {
    LeEParts(g);
    LeESpelled();
  }

  lemma LeEParts(g: Group)
    requires g.shortName == "S3/4_LeE 1"
    ensures g.LongName() == "S3/4" + " " + "History-Profil" + " 1"
  {
    var n: Option<string> := Some("1");
    assert AllDigits("1");
    assert g.shortName == "S3/4" + "_" + GroupProfiles[5].0 + NumberText(n);
    LongNameMatched(g, "S3/4", 5, n);
  }

  lemma LeESpelled()
    ensures "S3/4" + " " + "History-Profil" + " 1" == "S3/4 History-Profil 1"
  {
  }

  /** `S1/2_Nat`: no number part. */
  lemma NatWithoutNumber(g: Group)
    requires g.shortName == "S1/2_Nat"
    ensures g.LongName() == "S1/2 NuT-Profil"
  {
    assert g.shortName == "S1/2" + "_" + GroupProfiles[0].0 + NumberText(None);
    LongNameMatched(g, "S1/2", 0, None);
  }
}
