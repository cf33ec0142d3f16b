/** The character form of the profile page: the name filters, the submit
    predicates of the add and the edit forms, and the class-image path the
    page derives from a class name. */
module ClientProfile {
  import opened Base
  import opened Text
  import opened Sanitize
  import opened Schema
  import ClassImages

  /** `CLASSES`, the 19 choices of the form's class select. */
  const Classes: seq<string> := [
    "Feca", "Osamodas", "Enutrof", "Sram", "Xelor", "Ecaflip", "Eniripsa",
    "Iop", "Cr\U{00E2}", "Sadida", "Sacrieur", "Pandawa", "Roublard",
    "Zobal", "Steamer", "Eliotrope", "Huppermage", "Ouginak", "Forgelance"
  ]

  /** `c.toLowerCase().replace("â", "a")`: every code point lowered, and
      the first "â" of the lowered string, if there is one, made "a". */
  function ClassSlug(c: string): (r: string)
    ensures |r| == |c|
    ensures forall i | 0 <= i < |c| ::
      r[i] == if LowerChar(c[i]) == '\U{00E2}' && '\U{00E2}' !in Lower(c)[..i] then 'a' else LowerChar(c[i])
  {
    ReplaceFirst(Lower(c), '\U{00E2}', 'a')
  }

  /** `classImage`: a path under `/images/classes/` ending in `.png`, whose
      file name is the slug of the class. */
  function ClassImage(c: string): (r: string)
    ensures ClassImages.IsImagePath(r)
    ensures |r| == |c| + 20
    ensures r[16..|r| - 4] == ClassSlug(c)
  {
    var r := "/images/classes/" + ClassSlug(c) + ".png";
    assert r[..16] == "/images/classes/";
    assert r[16..|r| - 4] == ClassSlug(c);
    assert r[|r| - 4..] == ".png";
    r
  }

  /** Two classes share a page image exactly when their slugs agree: the
      path determines the slug and the slug the path. */
  lemma SameImageIffSameSlug(a: string, b: string)
    ensures ClassImage(a) == ClassImage(b) <==> ClassSlug(a) == ClassSlug(b)
  {
    if ClassImage(a) == ClassImage(b) {
      var p := ClassImage(a);
      assert ClassSlug(a) == p[16..|p| - 4] == ClassSlug(b);
    }
  }

  /** The slug ignores case: lowering first changes nothing. */
  lemma ClassSlugIgnoresCase(c: string)
    ensures ClassSlug(Lower(c)) == ClassSlug(c)
  {
    assert Lower(Lower(c)) == Lower(c);
  }

  /** The accented archer class gets the archer image (`cra.png`, spelled
      as in the table) on this page, where the lookup table, keyed by a
      mis-encoded spelling, answers the placeholder for the same name. */
  lemma ArcherImage()
    ensures ClassImage("Cr\U{00E2}") == ClassImages.Image("cra")
    ensures ClassImages.GetClassImage("Cr\U{00E2}") == ClassImages.Path(ClassImages.Placeholder)
  {
    ArcherSlug();
    assert ClassImage("Cr\U{00E2}") == "/images/classes/" + "cra" + ".png";
    ClassImages.AccentedCraMisses();
  }

  /** Lowering "Crâ" gives "crâ", and its one "â" becomes "a". */
  lemma ArcherSlug()
    ensures ClassSlug("Cr\U{00E2}") == "cra"
  {
    var c := "Cr\U{00E2}";
    var l := Lower(c);
    assert l[0] == 'c' && l[1] == 'r';
    assert '\U{00E2}' !in l[..2];
    var r := ClassSlug(c);
    assert r[0] == 'c' && r[1] == 'r' && r[2] == 'a';
  }

  /** The choices of the form are accepted by the server's class enum. */
  lemma ClassesAreEnumNames()
    ensures forall c | c in Classes :: c in ClassNames
  {
  }

  /** The add and edit forms: `serverId`, `name`, `level`, `class`. The level
      is the number the input holds, not necessarily an integer. */
  datatype Form = Form(serverId: int, name: string, level: real, cls: string)

  /** `levelOk` / `editLevelOk`. */
  predicate LevelOk(level: real) {
    MinLevel as real <= level <= MaxLevel as real
  }

  /** `canAdd` / `canSaveEdit`: the trimmed name passes `validName`, the level
      is in range and a server is chosen. */
  predicate CanSubmit(f: Form) {
    ValidName(Trim(f.name)) && LevelOk(f.level) && f.serverId != 0
  }

  /** `canAdd` spelled out: a trimmed name of 1 to 40 characters of the name
      alphabet, a level between 1 and 200, and a chosen server. */
  lemma CanSubmitIff(f: Form)
    ensures CanSubmit(f) <==>
      && 1 <= |Trim(f.name)| <= MaxNameLength
      && (forall i | 0 <= i < |Trim(f.name)| :: IsNameChar(Trim(f.name)[i]))
      && 1.0 <= f.level <= 200.0
      && f.serverId != 0
  {
    ValidNameIff(Trim(f.name));
  }

  /** Removing characters a string does not contain leaves it unchanged,
      and removal distributes over concatenation. */
  lemma {:induction false} StripConcat(a: string, b: string, drop: char -> bool)
    ensures Strip(a + b, drop) == Strip(a, drop) + Strip(b, drop)
    decreases |a|
  {
    if a == [] {
      assert a + b == b;
    } else {
      assert (a + b)[0] == a[0];
      assert (a + b)[1..] == a[1..] + b;
      StripConcat(a[1..], b, drop);
      if !drop(a[0]) {
        calc {
          Strip(a + b, drop);
          [a[0]] + Strip(a[1..] + b, drop);
          [a[0]] + (Strip(a[1..], drop) + Strip(b, drop));
          ([a[0]] + Strip(a[1..], drop)) + Strip(b, drop);
        }
      }
    }
  }

  /** Trimming a trimmed, non-empty core surrounded by whitespace gives the
      core. */
  lemma TrimAround(lead: string, core: string, trail: string)
    requires core != [] && IsTrimmed(core)
    requires forall i | 0 <= i < |lead| :: IsWhitespace(lead[i])
    requires forall i | 0 <= i < |trail| :: IsWhitespace(trail[i])
    ensures Trim(lead + core + trail) == core
  {
    var s := lead + core + trail;
    assert forall i | 0 <= i < |lead| :: s[i] == lead[i];
    assert forall i | 0 <= i < |core| :: s[|lead| + i] == core[i];
    assert forall i | 0 <= i < |trail| :: s[|lead| + |core| + i] == trail[i];
    assert LeadingWhitespace(s) == |lead|;
    assert TrailingWhitespace(s) == |trail|;
    assert s[|lead|..|s| - |trail|] == core;
  }

  /** Removing zero-width characters from whitespace leaves whitespace. */
  lemma StripWhitespace(w: string)
    requires forall i | 0 <= i < |w| :: IsWhitespace(w[i])
    ensures forall i | 0 <= i < |Strip(w, IsZeroWidth)| :: IsWhitespace(Strip(w, IsZeroWidth)[i])
  {
    var sw := Strip(w, IsZeroWidth);
    forall i | 0 <= i < |sw| ensures IsWhitespace(sw[i]) {
      var k :| 0 <= k < |w| && w[k] == sw[i];
    }
  }

  /** A core with no zero-width character between whitespace keeps its
      shape once zero-width characters are removed, and trims to itself. */
  lemma StripAround(lead: string, core: string, trail: string)
    requires core != [] && IsTrimmed(core)
    requires forall i | 0 <= i < |core| :: !IsZeroWidth(core[i])
    requires forall i | 0 <= i < |lead| :: IsWhitespace(lead[i])
    requires forall i | 0 <= i < |trail| :: IsWhitespace(trail[i])
    ensures Trim(Strip(lead + core + trail, IsZeroWidth)) == core
  {
    StripConcat(lead + core, trail, IsZeroWidth);
    StripConcat(lead, core, IsZeroWidth);
    StripWhitespace(lead);
    StripWhitespace(trail);
    TrimAround(Strip(lead, IsZeroWidth), core, Strip(trail, IsZeroWidth));
  }

  /** A string that does not trim to nothing is its trimmed form between
      two runs of whitespace. */
  lemma TrimSplit(s: string) returns (lead: string, trail: string)
    requires Trim(s) != []
    ensures s == lead + Trim(s) + trail
    ensures forall i | 0 <= i < |lead| :: IsWhitespace(lead[i])
    ensures forall i | 0 <= i < |trail| :: IsWhitespace(trail[i])
  {
    var lo := LeadingWhitespace(s);
    var hi := |s| - TrailingWhitespace(s);
    assert lo < |s| && Trim(s) == s[lo..hi];
    lead, trail := s[..lo], s[hi..];
    forall i | 0 <= i < |trail| ensures IsWhitespace(trail[i]) {
      assert trail[i] == s[hi + i];
    }
    assert forall i | 0 <= i < |lead| :: lead[i] == s[i];
    assert s[..hi] == lead + s[lo..hi];
    assert s == s[..hi] + trail;
  }

  /** A name whose trimmed form passes `validName` and which NFKC leaves
      alone normalises to exactly its trimmed form. */
  lemma NormalizedValidName(nf: Normalizer, name: string)
    requires ValidName(Trim(name)) && nf(name) == name
    ensures NormalizeName(nf, name) == Trim(name)
  {
    var core := Trim(name);
    ValidNameIff(core);
    assert forall i | 0 <= i < |core| :: !IsZeroWidth(core[i]);
    var lead, trail := TrimSplit(name);
    StripAround(lead, core, trail);
    assert NormalizeName(nf, name) == Trim(Strip(name, IsZeroWidth));
  }

  /** A form the page lets through is accepted by the server's schema when
      its server id is positive, its level an integer, its class one of the
      offered ones, and its name stable under NFKC: the page's checks imply
      the server's for such input. */
  lemma AcceptedFormIsAcceptedByServer(nf: Normalizer, f: Form)
    requires CanSubmit(f)
    requires f.serverId >= 1 && f.level == f.level.Floor as real && f.cls in Classes
    requires nf(f.name) == f.name
    ensures ParseCharacter(CharacterFields(Finite(f.serverId as real), Str(NormalizeName(nf, f.name)),
                                          Finite(f.level), Str(f.cls))).Some?
  {
    NormalizedNameIsParsed(nf, f.name);
    ClassesAreEnumNames();
    assert f.level == f.level.Floor as real;
    ParseCharacterAccepts(f.serverId, NormalizeName(nf, f.name), f.level.Floor, f.cls);
  }

  /** The server parses such a normalised name to itself. */
  lemma NormalizedNameIsParsed(nf: Normalizer, name: string)
    requires ValidName(Trim(name)) && nf(name) == name
    ensures ParseName(Str(NormalizeName(nf, name))) == Some(Trim(name))
  {
    NormalizedValidName(nf, name);
    var n := NormalizeName(nf, name);
    assert Trim(n) == n;
    ValidNameIff(n);
  }
}
