/** The Category record and the constraints its schema declares. */
module CategoryModel {
  import opened Common

  type CategoryId = nat

  const NAME_MAX_LENGTH := 50
  const DESCRIPTION_MAX_LENGTH := 200

  /** A stored category; createdAt is the schema's automatic timestamp. */
  datatype Category = Category(
    id: CategoryId,
    name: string,
    description: Option<string>,
    createdBy: UserId,
    createdAt: Time)

  /** The characters JavaScript's `String.prototype.trim` removes: white space and line terminators. */
  predicate IsSpace(c: char)
  {
    || c == ' ' || c == '\t' || c == '\n' || c == '\r' || c == '\U{000B}' || c == '\U{000C}'
    || c == '\U{00A0}' || c == '\U{1680}' || ('\U{2000}' <= c <= '\U{200A}')
    || c == '\U{2028}' || c == '\U{2029}' || c == '\U{202F}' || c == '\U{205F}'
    || c == '\U{3000}' || c == '\U{FEFF}'
  }

  /** s with its leading white space removed. */
  function TrimStart(s: string): (r: string)
    ensures |r| <= |s| && r == s[|s| - |r|..]
    ensures r == [] || !IsSpace(r[0])
    ensures forall i :: 0 <= i < |s| - |r| ==> IsSpace(s[i])
  {
    if s != [] && IsSpace(s[0]) then TrimStart(s[1..]) else s
  }

  /** s with its trailing white space removed. */
  function TrimEnd(s: string): (r: string)
    ensures |r| <= |s| && r == s[..|r|]
    ensures r == [] || !IsSpace(r[|r| - 1])
    ensures forall i :: |r| <= i < |s| ==> IsSpace(s[i])
  {
    if s != [] && IsSpace(s[|s| - 1]) then TrimEnd(s[..|s| - 1]) else s
  }

  /** The schema's `trim` setter, applied before any validator runs. */
  function Trim(s: string): string
  {
    TrimEnd(TrimStart(s))
  }

  predicate Trimmed(s: string)
  {
    s == [] || (!IsSpace(s[0]) && !IsSpace(s[|s| - 1]))
  }

  /** The result of trimming neither starts nor ends with white space. */
  lemma TrimTrimmed(s: string)
    ensures Trimmed(Trim(s))
  {
    var a := TrimStart(s);
    var r := TrimEnd(a);
    if r != [] {
      assert r[0] == a[0];
    }
  }

  /** Trimming a string that is already trimmed leaves it as it is. */
  lemma {:induction false} TrimmedFixed(s: string)
    requires Trimmed(s)
    ensures Trim(s) == s
  {
  }

  /** Trimming twice is trimming once. */
  lemma TrimIdempotent(s: string)
    ensures Trim(Trim(s)) == Trim(s)
  {
    TrimTrimmed(s);
    TrimmedFixed(Trim(s));
  }

  /** What the schema's validators accept: a required name (not empty once
      trimmed) of at most 50 UTF-16 code units and a description of at most 200. The
      creator is a required id, which every category in this model has. */
  predicate ValidCategory(c: Category)
  {
    && c.name != "" && JsLength(c.name) <= NAME_MAX_LENGTH
    && (c.description.None? || JsLength(c.description.value) <= DESCRIPTION_MAX_LENGTH)
  }

  predicate NameTaken(cs: seq<Category>, name: string)
  {
    exists i :: 0 <= i < |cs| && cs[i].name == name
  }

  predicate IdTaken(cs: seq<Category>, id: CategoryId)
  {
    exists i :: 0 <= i < |cs| && cs[i].id == id
  }

  /** The invariant of the stored categories: valid, trimmed names, and no id or
      name twice (the name carries a unique index). */
  predicate CategoriesOk(cs: seq<Category>)
  {
    && (forall i :: 0 <= i < |cs| ==> ValidCategory(cs[i]) && Trimmed(cs[i].name))
    && (forall i, j :: 0 <= i < j < |cs| ==> cs[i].id != cs[j].id && cs[i].name != cs[j].name)
  }
}
