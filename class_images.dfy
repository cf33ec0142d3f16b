/** The class-image lookup shared by the match list: an exact-key lookup
    in a plain object literal, with a placeholder for a missing key. */
module ClassImages {
  import opened Text
  import Schema

  /** What `classImage[cls]` can yield when it is not `undefined`: one of
      the table's path strings, or a member the object literal inherits
      from `Object.prototype` (a method, or the prototype itself for
      `__proto__`), named here by its key. */
  datatype ImageValue = Path(path: string) | Inherited(member: string)

  /** The keys under which every plain object finds an inherited,
      non-nullish member. */
  const InheritedKeys: set<string> := {
    "constructor", "hasOwnProperty", "isPrototypeOf", "propertyIsEnumerable",
    "toLocaleString", "toString", "valueOf", "__proto__",
    "__defineGetter__", "__defineSetter__", "__lookupGetter__", "__lookupSetter__"
  }

  const Placeholder := "/images/classes/_placeholder.png"

  /** The path of the image file `file`.png, as each table entry spells it. */
  function Image(file: string): (p: string)
    ensures IsImagePath(p)
    ensures |p| == |file| + 20
  {
    var p := "/images/classes/" + file + ".png";
    assert p[..16] == "/images/classes/";
    assert p[|p| - 4..] == ".png";
    p
  }

  /** The table as written. Its accented key is spelled "Cr√¢" (the UTF-8
      bytes of "Crâ" read as Mac Roman), so only that exact string hits it. */
  const Table: map<string, string> := map[
    "Feca" := Image("feca"),
    "Osamodas" := Image("osamodas"),
    "Enutrof" := Image("enutrof"),
    "Sram" := Image("sram"),
    "Xelor" := Image("xelor"),
    "Ecaflip" := Image("ecaflip"),
    "Eniripsa" := Image("eniripsa"),
    "Iop" := Image("iop"),
    "Cr\U{221A}\U{00A2}" := Image("cra"),
    "Cra" := Image("cra"),
    "Sadida" := Image("sadida"),
    "Sacrieur" := Image("sacrieur"),
    "Pandawa" := Image("pandawa"),
    "Roublard" := Image("roublard"),
    "Zobal" := Image("zobal"),
    "Steamer" := Image("steamer"),
    "Eliotrope" := Image("eliotrope"),
    "Huppermage" := Image("huppermage"),
    "Ouginak" := Image("ouginak"),
    "Forgelance" := Image("forgelance")
  ]

  predicate IsImagePath(p: string) {
    IsPrefix("/images/classes/", p) && |p| >= 4 && p[|p| - 4..] == ".png"
  }

  /** No entry of the table is the placeholder: every file name in it is
      shorter than "_placeholder". */
  lemma PlaceholderNotInTable()
    ensures forall k | k in Table :: Table[k] != Placeholder
  {
    forall k | k in Table ensures |Table[k]| < |Placeholder| {
    }
  }

  /** `getClassImage`: a key of the table gets its path, a key inherited
      from `Object.prototype` gets that member (it is not nullish, so `??`
      keeps it), and exactly the remaining strings get the placeholder.
      Every path returned is an image path. */
  function GetClassImage(cls: string): (r: ImageValue)
    ensures cls in Table ==> r == Path(Table[cls])
    ensures cls !in Table && cls in InheritedKeys ==> r == Inherited(cls)
    ensures r.Path? ==> IsImagePath(r.path)
    ensures r == Path(Placeholder) <==> cls !in Table && cls !in InheritedKeys
  {
    assert IsImagePath(Placeholder) by { assert Placeholder == Image("_placeholder"); }
    PlaceholderNotInTable();
    if cls in Table then Path(Table[cls])
    else if cls in InheritedKeys then Inherited(cls)
    else Path(Placeholder)
  }

  /** No name of the character `class` enum is an inherited key, so a stored
      class always gets an image path: its table entry, or the placeholder
      for the accented "Crâ" alone. */
  lemma EnumClassesGetPaths(cls: string)
    requires cls in Schema.ClassNames
    ensures GetClassImage(cls).Path? && IsImagePath(GetClassImage(cls).path)
    ensures GetClassImage(cls) == Path(Placeholder) <==> cls == "Cr\U{00E2}"
  {
    var i :| 0 <= i < |Schema.ClassNames| && Schema.ClassNames[i] == cls;
    EnumNamesCapitalised();
    InheritedKeysNotCapitalised();
    EnumNamesInTable();
    assert cls !in InheritedKeys;
    assert "Cr\U{00E2}" !in Table;
  }

  /** Every enum name starts with a capital letter. */
  lemma EnumNamesCapitalised()
    ensures forall i | 0 <= i < |Schema.ClassNames| :: Capitalised(Schema.ClassNames[i])
  {
  }

  /** No inherited key starts with a capital letter. */
  lemma InheritedKeysNotCapitalised()
    ensures forall k | k in InheritedKeys :: !Capitalised(k)
  {
  }

  /** Every enum name but the accented "Crâ" is a key of the table. */
  lemma EnumNamesInTable()
    ensures forall i | 0 <= i < |Schema.ClassNames| ::
      Schema.ClassNames[i] in Table || Schema.ClassNames[i] == "Cr\U{00E2}"
  {
  }

  predicate Capitalised(s: string) {
    s != [] && 'A' <= s[0] <= 'Z'
  }

  /** The plain spelling of the archer class and the mojibake key both hit
      the `cra.png` entry. */
  lemma CraSpellings()
    ensures GetClassImage("Cra") == Path("/images/classes/cra.png")
    ensures GetClassImage("Cr\U{221A}\U{00A2}") == Path("/images/classes/cra.png")
  {
    assert Image("cra") == "/images/classes/cra.png";
  }

  /** The correctly accented "Crâ" is not a key, so it falls back to
      the placeholder. */
  lemma AccentedCraMisses()
    ensures GetClassImage("Cr\U{00E2}") == Path(Placeholder)
  {
    assert "Cr\U{00E2}" !in Table && "Cr\U{00E2}" !in InheritedKeys;
  }
}
