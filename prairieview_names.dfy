/**
 * Shared vocabulary of the PrairieView metadata reader (records/prairieview.py):
 * the library functions it calls, the exceptions it raises, the alias
 * generators, the descriptive-name resolver, the conversion of attribute text
 * to floats and the construction of named tuples.
 */
module PrairieViewNames {
  import opened Wrappers
  import opened Text
  import opened Xml

  /**
   * Library code the reader calls but whose own code is not part of this model:
   * pydantic's `to_snake` and `to_camel`, Python's `float(str)`, which
   * answers `None` where it raises ValueError, and `str.isidentifier`.
   */
  datatype Lib = Lib(
    toSnake: string -> string,
    toCamel: string -> string,
    parseFloat: string -> Option<real>,
    isIdentifier: string -> bool)

  /** The exceptions the reader raises, by cause. */
  datatype PVError =
    | MissingDescriptor(tag: string)      // KeyError: no description, subindex or index attribute
    | MissingKey                          // KeyError: `attrib["key"]` on an element without one
    | MissingElement(tag: string)         // `find(tag)` answered None and the result was used
    | MissingValue                        // TypeError: `float(None)`
    | MalformedValue(text: string)        // ValueError: `float(text)`
    | NotATuple(field: string)            // TypeError from the grouped-field validator
    | ValidationFailed(fields: seq<string>) // pydantic ValidationError, naming the failing fields
    | ShapeMismatch                       // ValueError from `np.vstack`
    | NoFrames                            // IndexError: a sequence without frames
    | UnexpectedLayout(plane: Option<nat>) // indexing into MAT data that lacks the expected nesting
    | BadTypeName(name: string)           // ValueError: a `namedtuple` type name that is no identifier or a keyword

  /** `_custom_snake_alias`: `to_snake` with every space turned into an underscore. */
  function SnakeAlias(lib: Lib, camel: string): (r: string)
    ensures ' ' !in r
  {
    ReplaceCharRemoves(lib.toSnake(camel), ' ', '_');
    ReplaceAll(lib.toSnake(camel), " ", "_")
  }

  /** `_custom_camel_alias`: `to_camel` with every space turned into an underscore. */
  function CamelAlias(lib: Lib, snake: string): (r: string)
    ensures ' ' !in r
  {
    ReplaceCharRemoves(lib.toCamel(snake), ' ', '_');
    ReplaceAll(lib.toCamel(snake), " ", "_")
  }

  /** The attributes that can name a grouped value, in order of preference. */
  const DescriptorKeys: seq<string> := ["description", "subindex", "index"]

  /** The value of the first of `keys` that the element carries. */
  function FirstPresent(e: Element, keys: seq<string>): Option<string> {
    if keys == [] then None
    else match Get(e, keys[0])
      case Some(v) => Some(v)
      case None => FirstPresent(e, keys[1..])
  }

  /**
   * `_form_descriptive_field_name`: the snake-cased value of the first of
   * `description`, `subindex`, `index` that is present (an empty value counts),
   * or KeyError when none is.
   */
  function DescriptiveName(lib: Lib, e: Element): (r: Result<string, PVError>)
    ensures Get(e, "description").Some? ==> r == Ok(SnakeAlias(lib, Get(e, "description").value))
    ensures Get(e, "description").None? && Get(e, "subindex").Some? ==>
      r == Ok(SnakeAlias(lib, Get(e, "subindex").value))
    ensures Get(e, "description").None? && Get(e, "subindex").None? && Get(e, "index").Some? ==>
      r == Ok(SnakeAlias(lib, Get(e, "index").value))
    ensures Get(e, "description").None? && Get(e, "subindex").None? && Get(e, "index").None? ==>
      r == Err(MissingDescriptor(e.tag))
    ensures r.Ok? ==> ' ' !in r.value
  {
    assert DescriptorKeys[1..] == ["subindex", "index"];
    assert DescriptorKeys[1..][1..] == ["index"];
    assert ["index"][1..] == [];
    assert FirstPresent(e, ["index"]) == Get(e, "index");
    assert FirstPresent(e, ["subindex", "index"]) == if Get(e, "subindex").Some? then Get(e, "subindex") else Get(e, "index");
    match FirstPresent(e, DescriptorKeys)
    case Some(v) => Ok(SnakeAlias(lib, v))
    case None => Err(MissingDescriptor(e.tag))
  }

  /** The descriptive names of a list of elements, or the first element's KeyError. */
  function DescriptiveNames(lib: Lib, elements: seq<Element>): (r: Result<seq<string>, PVError>)
    ensures r.Ok? ==> |r.value| == |elements|
    ensures r.Ok? ==> forall i | 0 <= i < |elements| :: DescriptiveName(lib, elements[i]) == Ok(r.value[i])
    ensures r.Err? ==> exists i | 0 <= i < |elements| ::
      DescriptiveName(lib, elements[i]) == Err(r.error) && forall j | 0 <= j < i :: DescriptiveName(lib, elements[j]).Ok?
  {
    if elements == [] then Ok([])
    else match DescriptiveName(lib, elements[0])
      case Err(e) => Err(e)
      case Ok(name) =>
        ElementsTail(elements);
        match DescriptiveNames(lib, elements[1..])
        case Err(e) => Err(e)
        case Ok(names) => Ok([name] + names)
  }

  lemma ElementsTail(elements: seq<Element>)
    requires elements != []
    ensures forall i | 1 <= i < |elements| :: elements[i] == elements[1..][i - 1]
  {
  }

  // ---------------------------------------------------------------------------
  // Floats

  /** `float(value)` for an attribute that may be missing. */
  function ParseValue(lib: Lib, value: Option<string>): Result<real, PVError> {
    match value
    case None => Err(MissingValue)
    case Some(text) =>
      match lib.parseFloat(text)
      case Some(x) => Ok(x)
      case None => Err(MalformedValue(text))
  }

  /** `[float(v) for v in values]`: every value converted, or the first failure. */
  function ParseValues(lib: Lib, values: seq<Option<string>>): (r: Result<seq<real>, PVError>)
    ensures r.Ok? ==> |r.value| == |values|
    ensures r.Ok? ==> forall i | 0 <= i < |values| :: ParseValue(lib, values[i]) == Ok(r.value[i])
    ensures r.Err? ==> exists i | 0 <= i < |values| ::
      ParseValue(lib, values[i]) == Err(r.error) && forall j | 0 <= j < i :: ParseValue(lib, values[j]).Ok?
  {
    if values == [] then Ok([])
    else match ParseValue(lib, values[0])
      case Err(e) => Err(e)
      case Ok(x) =>
        match ParseValues(lib, values[1..])
        case Err(e) =>
          assert forall i | 1 <= i < |values| :: values[i] == values[1..][i - 1];
          Err(e)
        case Ok(xs) =>
          assert forall i | 1 <= i < |values| :: values[i] == values[1..][i - 1];
          Ok([x] + xs)
  }

  // ---------------------------------------------------------------------------
  // Named tuples

  /** An instance of a `namedtuple` class: its type name, field names and values. */
  datatype Group = Group(typename: string, fields: seq<string>, values: seq<real>)

  /** A field name and the text its value is read from, before conversion. */
  datatype Entry = Entry(name: string, value: Option<string>)

  /** Python's reserved words (`keyword.kwlist`). */
  const Keywords: seq<string> := [
    "False", "None", "True", "and", "as", "assert", "async", "await", "break",
    "class", "continue", "def", "del", "elif", "else", "except", "finally", "for",
    "from", "global", "if", "import", "in", "is", "lambda", "nonlocal", "not",
    "or", "pass", "raise", "return", "try", "while", "with", "yield"]

  /** A name `namedtuple` accepts as a type or field name: an identifier that is not a keyword. */
  predicate ValidName(lib: Lib, name: string) {
    lib.isIdentifier(name) && name !in Keywords
  }

  /**
   * `namedtuple(..., rename=True)` replaces the name at position `i` by `_i` when it
   * is not an identifier (the empty name never is), is a keyword, starts with an
   * underscore, or repeats an earlier name.
   */
  predicate NeedsRename(lib: Lib, names: seq<string>, i: nat)
    requires i < |names|
  {
    names[i] == [] || !ValidName(lib, names[i]) || names[i][0] == '_' || names[i] in names[..i]
  }

  function Renamed(lib: Lib, names: seq<string>): (r: seq<string>)
    ensures |r| == |names|
  {
    seq(|names|, i requires 0 <= i < |names| => if NeedsRename(lib, names, i) then "_" + Decimal(i) else names[i])
  }

  /** After renaming, the field names of a tuple are pairwise distinct. */
  lemma RenamedDistinct(lib: Lib, names: seq<string>)
    ensures forall i, j | 0 <= i < j < |names| :: Renamed(lib, names)[i] != Renamed(lib, names)[j]
  {
    var r := Renamed(lib, names);
    forall i, j | 0 <= i < j < |names|
      ensures r[i] != r[j]
    {
      if NeedsRename(lib, names, i) && NeedsRename(lib, names, j) {
        DecimalDistinct(i, j);
        assert r[i][1..] == Decimal(i) && r[j][1..] == Decimal(j);
      } else if NeedsRename(lib, names, i) {
        assert r[i][0] == '_' && r[j][0] != '_';
      } else if NeedsRename(lib, names, j) {
        assert r[j][0] == '_' && r[i][0] != '_';
      } else {
        assert names[i] == names[..j][i];
      }
    }
  }

  /**
   * Names that are identifiers but no keywords, start with no underscore and are
   * distinct are kept as they are.
   */
  lemma RenamedKeepsPlainNames(lib: Lib, names: seq<string>)
    requires forall i | 0 <= i < |names| :: names[i] != [] && ValidName(lib, names[i]) && names[i][0] != '_'
    requires forall i, j | 0 <= i < j < |names| :: names[i] != names[j]
    ensures Renamed(lib, names) == names
  {
    forall i | 0 <= i < |names|
      ensures !NeedsRename(lib, names, i)
    {
      assert forall k | 0 <= k < i :: names[..i][k] == names[k] != names[i];
    }
  }

  /**
   * `namedtuple(typename, names, rename=True)(*(float(v) for v in values))`:
   * the tuple class is made first, which fails on a type name that is no
   * identifier or a keyword (renaming applies to field names only), then the
   * values are converted in order.
   */
  function MakeGroup(lib: Lib, typename: string, entries: seq<Entry>): (r: Result<Group, PVError>)
    ensures !ValidName(lib, typename) ==> r == Err(BadTypeName(typename))
    ensures r.Ok? ==> r.value.typename == typename && |r.value.fields| == |entries| == |r.value.values|
  {
    if !ValidName(lib, typename) then Err(BadTypeName(typename))
    else
      var names := seq(|entries|, i requires 0 <= i < |entries| => entries[i].name);
      var values := seq(|entries|, i requires 0 <= i < |entries| => entries[i].value);
      match ParseValues(lib, values)
      case Err(e) => Err(e)
      case Ok(xs) => Ok(Group(typename, Renamed(lib, names), xs))
  }

  /** What a group built from entries holds: the renamed entry names and each entry's converted value. */
  lemma MakeGroupContents(lib: Lib, typename: string, entries: seq<Entry>)
    ensures MakeGroup(lib, typename, entries).Ok? <==>
      ValidName(lib, typename) && forall i | 0 <= i < |entries| :: ParseValue(lib, entries[i].value).Ok?
    ensures MakeGroup(lib, typename, entries).Ok? ==>
      var g := MakeGroup(lib, typename, entries).value;
      && g.fields == Renamed(lib, seq(|entries|, i requires 0 <= i < |entries| => entries[i].name))
      && forall i | 0 <= i < |entries| :: ParseValue(lib, entries[i].value) == Ok(g.values[i])
  {
    var values := seq(|entries|, i requires 0 <= i < |entries| => entries[i].value);
    assert forall i | 0 <= i < |entries| :: values[i] == entries[i].value;
  }
}
