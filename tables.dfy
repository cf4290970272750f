/**
 * The records tables (records/tables.py): the registry that finds a table class
 * by name or alias, the collection of a template's tables, the cage-number
 * validator of the mouse-information table, the grid arithmetic of the filling
 * dialog and the dictionary of default values it starts from.
 */
module Tables {
  import opened Wrappers
  import opened Text

  /** A value a table field can default to. */
  datatype FieldValue = Str(s: string) | Bool(b: bool) | Num(x: real) | Null

  /**
   * What pydantic records about a field: the value its default factory produces
   * when called, if it has one, and its default, `None` standing for
   * `PydanticUndefined`.
   */
  datatype FieldInfo = FieldInfo(factory: Option<FieldValue>, default: Option<FieldValue>)

  /** A table class: its `__name__` and its model fields in declaration order. */
  datatype Table = Table(name: string, fields: seq<(string, FieldInfo)>)

  // ---------------------------------------------------------------------------
  // Registry

  /** `if alias:` — an alias that is present and not empty. */
  predicate Truthy(alias: Option<string>) {
    alias.Some? && alias.value != ""
  }

  /** The registry of table classes, keyed by class name and by alias, in insertion order. */
  class TableRegistry {
    var entries: map<string, Table>
    var order: seq<string>

    /** The order lists every key once. */
    ghost predicate Valid()
      reads this
    {
      && (forall k :: k in entries <==> k in order)
      && (forall i, j | 0 <= i < j < |order| :: order[i] != order[j])
    }

    constructor ()
      ensures Valid() && entries == map[] && order == []
    {
      entries := map[];
      order := [];
    }

    /** `__registry[key] = table`: a new key goes last, an existing one keeps its place. */
    method Put(key: string, table: Table)
      requires Valid()
      modifies this
      ensures Valid()
      ensures entries == old(entries)[key := table]
      ensures order == if key in old(entries) then old(order) else old(order) + [key]
    {
      if key !in entries {
        order := order + [key];
      }
      entries := entries[key := table];
    }

    /**
     * `register(alias)(table)`: the table under a truthy alias, then under its
     * class name; the table itself is returned and an earlier table under either
     * key is replaced.
     */
    method Register(alias: Option<string>, table: Table) returns (r: Table)
      requires Valid()
      modifies this
      ensures Valid()
      ensures r == table
      ensures Truthy(alias) ==> entries == old(entries)[alias.value := table][table.name := table]
      ensures !Truthy(alias) ==> entries == old(entries)[table.name := table]
      ensures
        var afterAlias := if Truthy(alias) && alias.value !in old(entries) then old(order) + [alias.value] else old(order);
        order == if table.name in old(entries) || (Truthy(alias) && alias.value == table.name) then afterAlias
                 else afterAlias + [table.name]
    {
      if Truthy(alias) {
        Put(alias.value, table);
      }
      Put(table.name, table);
      r := table;
    }

    /** `get(key)`: the table under the key, or None. */
    function Get(key: string): (r: Option<Table>)
      reads this
      ensures r.Some? <==> key in entries
      ensures r.Some? ==> r.value == entries[key]
    {
      if key in entries then Some(entries[key]) else None
    }

    /** `tables()`: every registered name and alias, once each, in registration order. */
    function Tables(): (r: seq<string>)
      reads this
      requires Valid()
      ensures forall k :: k in r <==> k in entries
      ensures forall i, j | 0 <= i < j < |r| :: r[i] != r[j]
    {
      order
    }
  }

  /**
   * `collect_tables`: one lookup per name the template lists, in order (none when
   * it lists no tables), None for a name nothing was registered under.
   */
  function CollectTables(registry: TableRegistry, names: Option<seq<string>>): (r: seq<Option<Table>>)
    reads registry
    ensures names.None? ==> r == []
    ensures names.Some? ==> |r| == |names.value|
    ensures names.Some? ==> forall i | 0 <= i < |r| ::
      && (r[i].Some? <==> names.value[i] in registry.entries)
      && (r[i].Some? ==> r[i].value == registry.entries[names.value[i]])
  {
    match names
    case None => []
    case Some(ns) => seq(|ns|, i requires 0 <= i < |ns| reads registry => registry.Get(ns[i]))
  }

  // ---------------------------------------------------------------------------
  // Cage numbers

  /** What `validate_cage` is given: an int, a string, or anything else. */
  datatype CageInput = CageInt(n: int) | CageStr(s: string) | CageOther

  /** ValueError for a character that is not a digit, TypeError for a value that cannot be iterated. */
  datatype CageError = NotDigits | NotIterable

  /** The string left-padded with zeros to at least six characters. */
  function PadCage(s: string): string {
    Repeat('0', 6 - |s|) + s
  }

  /** `f"{n:06d}"`: zero-padded to width six, the width counting the sign of a negative number. */
  function Format06d(n: int): (r: string)
    ensures |r| >= 6
  {
    if n >= 0 then PadCage(Decimal(n))
    else "-" + Repeat('0', 5 - |Decimal(-n)|) + Decimal(-n)
  }

  /** `MouseInformation.validate_cage`, as a value. */
  function Cage(value: CageInput): Result<string, CageError> {
    match value
    case CageOther => Err(NotIterable)
    case CageInt(n) =>
      var text := PadCage(Format06d(n));
      if AllDigits(text) then Ok(text) else Err(NotDigits)
    case CageStr(s) =>
      var text := PadCage(s);
      if AllDigits(text) then Ok(text) else Err(NotDigits)
  }

  /** `validate_cage`: an int is formatted, a string is padded by prepending zeros one at a time, then every character must be a digit. */
  method ValidateCage(value: CageInput) returns (r: Result<string, CageError>)
    ensures r == Cage(value)
  {
    if value.CageOther? {
      return Err(NotIterable);
    }
    var text := if value.CageInt? then Format06d(value.n) else value.s;
    ghost var original := text;
    while |text| < 6
      invariant |original| <= |text|
      invariant text == Repeat('0', |text| - |original|) + original
      invariant |original| < 6 ==> |text| <= 6
      invariant |original| >= 6 ==> text == original
      decreases 6 - |text|
    {
      text := "0" + text;
    }
    if |original| < 6 {
      assert |text| - |original| == 6 - |original|;
    } else {
      assert text == original;
    }
    assert text == PadCage(original);
    if forall i | 0 <= i < |text| :: IsDigit(text[i]) {
      r := Ok(text);
    } else {
      r := Err(NotDigits);
    }
  }

  /**
   * A string is padded on the left with zeros to six characters: the result is
   * at least six long, ends with the original, is the original when that already
   * has six characters, and is accepted exactly when the original is all digits.
   */
  lemma CageStringPadding(s: string)
    ensures Cage(CageStr(s)).Ok? <==> AllDigits(s)
    ensures Cage(CageStr(s)).Ok? ==>
      var r := Cage(CageStr(s)).value;
      && |r| >= 6 && |r| >= |s|
      && r[|r| - |s|..] == s
      && (forall i | 0 <= i < |r| - |s| :: r[i] == '0')
      && (|s| >= 6 ==> r == s)
  {
    var text := PadCage(s);
    var z := |text| - |s|;
    assert text[z..] == s;
    if AllDigits(s) {
      assert AllDigits(text) by {
        forall i | 0 <= i < |text|
          ensures IsDigit(text[i])
        {
          if i >= z {
            assert text[i] == s[i - z];
          }
        }
      }
    } else {
      var i :| 0 <= i < |s| && !IsDigit(s[i]);
      assert text[z + i] == s[i];
    }
  }

  /** A non-negative int is accepted and the digits denote the same number, in at least six characters. */
  lemma CageIntRoundTrip(n: nat)
    ensures Cage(CageInt(n)).Ok?
    ensures |Cage(CageInt(n)).value| == if |Decimal(n)| < 6 then 6 else |Decimal(n)|
    ensures AllDigits(Cage(CageInt(n)).value) && DigitsValue(Cage(CageInt(n)).value) == n
  {
    DecimalRoundTrip(n);
    var text := PadCage(Decimal(n));
    if |Decimal(n)| < 6 {
      LeadingZeros(6 - |Decimal(n)|, Decimal(n));
    } else {
      assert text == Decimal(n);
    }
    assert PadCage(text) == text;
  }

  /** A negative int is always rejected: its sign is not a digit. */
  lemma CageNegativeRejected(n: int)
    requires n < 0
    ensures Cage(CageInt(n)) == Err(NotDigits)
  {
    var text := Format06d(n);
    assert PadCage(text) == text;
    assert text[0] == '-';
  }

  // ---------------------------------------------------------------------------
  // Filling dialog

  /** `math.ceil(n / 16)` on integers. */
  function CeilDiv16(n: int): int {
    -((-n) / 16)
  }

  /** `find_optimal_grid`: sixteen rows and the fewest columns that hold every field. */
  function FindOptimalGrid(numFields: int): (r: (int, int))
    ensures r.0 == 16
    ensures r.0 * r.1 >= numFields
    ensures r.0 * (r.1 - 1) < numFields
  {
    (16, CeilDiv16(numFields))
  }

  /** A field of the container: the pydantic field itself, or the value it is filled with. */
  datatype Slot = Info(info: FieldInfo) | Filled(value: FieldValue)

  /** The value a field starts from: its factory's result, else "N/A" without a default, else the default. */
  function StartValue(info: FieldInfo): FieldValue {
    if info.factory.Some? then info.factory.value
    else if info.default.None? then Str("N/A")
    else info.default.value
  }

  /**
   * `make_fields_container`: the same fields in the same order; `title` keeps
   * its pydantic field and every other field its start value.
   */
  method MakeFieldsContainer(table: Table) returns (r: seq<(string, Slot)>)
    ensures |r| == |table.fields|
    ensures forall i | 0 <= i < |r| :: r[i].0 == table.fields[i].0
    ensures forall i | 0 <= i < |r| && table.fields[i].0 == "title" :: r[i].1 == Info(table.fields[i].1)
    ensures forall i | 0 <= i < |r| && table.fields[i].0 != "title" ::
      && r[i].1 == Filled(StartValue(table.fields[i].1))
      && (table.fields[i].1.factory.None? && table.fields[i].1.default.None? ==> r[i].1 == Filled(Str("N/A")))
  {
    r := seq(|table.fields|, i requires 0 <= i < |table.fields| => (table.fields[i].0, Info(table.fields[i].1)));
    for i := 0 to |r|
      invariant |r| == |table.fields|
      invariant forall j | 0 <= j < |r| :: r[j].0 == table.fields[j].0
      invariant forall j | i <= j < |r| :: r[j].1 == Info(table.fields[j].1)
      invariant forall j | 0 <= j < i :: r[j].1 == if table.fields[j].0 == "title" then Info(table.fields[j].1) else Filled(StartValue(table.fields[j].1))
    {
      var (key, value) := table.fields[i];
      if key == "title" {
        continue;
      } else if value.factory.Some? {
        r := r[i := (key, Filled(value.factory.value))];
      } else if value.default.None? {
        r := r[i := (key, Filled(Str("N/A")))];
      } else {
        r := r[i := (key, Filled(value.default.value))];
      }
    }
  }
}
