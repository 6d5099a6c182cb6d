/** Classes (and profiles): the same code scheme as groups, with a table of its own. */
module Classes {
  import opened Wrappers
  import opened Profiles
  import Groups
  import opened Text

  /** The class table; it lists the same keys and names as the group table. */
  const ClassProfiles: Table := [
    ("Nat", "NuT-Profil"),
    ("Fort", "Biologieprofil"),
    ("Ku", "Kunstprofil"),
    ("Le", "Geschichtsprofil"),
    ("LeD", "Geschichtsprofil"),
    ("LeE", "History-Profil"),
    ("Spr", "Sprachen/PGW-Profil"),
    ("Sp", "Sportprofil")
  ]

  /** A class keeps only its short name; the long name is derived on every read. */
  datatype Class = Class(shortName: string) {
    function LongName(): string {
      ParseProfileName(ClassProfiles, shortName)
    }
  }

  lemma ClassProfilesWellFormed()
    ensures WellFormed(ClassProfiles)
  {
  }

  /** A code that does not match the profile pattern is its own long name. */
  lemma LongNameUnmatched(c: Class)
    requires forall sem, p, n :: !ProfileForm(ClassProfiles, c.shortName, sem, p, n)
    ensures c.LongName() == c.shortName
  {
    MatchProfileExactly(ClassProfiles, c.shortName);
  }

  /** A code of the profile form reads as semester, space, profile name and the number part. */
  lemma LongNameMatched(c: Class, sem: string, p: nat, n: Option<string>)
    requires ProfileForm(ClassProfiles, c.shortName, sem, p, n)
    ensures c.LongName() == sem + " " + ClassProfiles[p].1 + NumberText(n)
  {
    ClassProfilesWellFormed();
    ParseProfileNameMatched(ClassProfiles, c.shortName, sem, p, n);
  }

  /** A class and a group with the same short name have the same long name. */
  lemma SameAsGroup(name: string)
    ensures Class(name).LongName() == Groups.Group(name).LongName()
  {
    assert ClassProfiles == Groups.GroupProfiles;
  }

  /** `S1/2_LeD 2`, the documented example. */
  lemma LeDExample(c: Class)
    requires c.shortName == "S1/2_LeD 2"
    ensures c.LongName() == "S1/2 Geschichtsprofil 2"
  {
    LeDParts(c);
    LeDSpelled();
  }

  lemma LeDParts(c: Class)
    requires c.shortName == "S1/2_LeD 2"
    ensures c.LongName() == "S1/2" + " " + "Geschichtsprofil" + " 2"
  {
    var n: Option<string> := Some("2");
    assert AllDigits("2");
    assert c.shortName == "S1/2" + "_" + ClassProfiles[4].0 + NumberText(n);
    LongNameMatched(c, "S1/2", 4, n);
  }

  lemma LeDSpelled()
    ensures "S1/2" + " " + "Geschichtsprofil" + " 2" == "S1/2 Geschichtsprofil 2"
  {
  }
}
