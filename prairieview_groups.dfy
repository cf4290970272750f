/**
 * Grouped values of a PrairieView state file: the indexed and sub-indexed
 * extractors that turn nested elements into named tuples, and the collector of
 * frame times (records/prairieview.py).
 */
module PrairieViewGroups {
  import opened Wrappers
  import opened Xml
  import opened PrairieViewNames

  /** The type name of a group: the parent's `key`, or "ANONYMOUS" when it has none. */
  function GroupName(parent: Element): string {
    GetOr(parent, "key", "ANONYMOUS")
  }

  // ---------------------------------------------------------------------------
  // Indexed values

  /**
   * `_extract_index_meta`: one field per nested element, named by the resolver
   * and valued by the float of the element's `value`; the names are all resolved
   * before any value is converted.
   */
  function ExtractIndexMeta(lib: Lib, parent: Element, nested: seq<Element>): (r: Result<Group, PVError>)
    ensures r.Ok? ==> r.value.typename == GroupName(parent)
    ensures r.Ok? ==> |r.value.fields| == |nested| == |r.value.values|
  {
    match DescriptiveNames(lib, nested)
    case Err(e) => Err(e)
    case Ok(names) =>
      MakeGroup(lib, GroupName(parent), seq(|nested|, i requires 0 <= i < |nested| => Entry(names[i], Get(nested[i], "value"))))
  }

  /**
   * The fields of an indexed group: the i-th field is the resolver's name for
   * element i (renamed only where `namedtuple` would) and the i-th value is the
   * float of its `value`; a KeyError of the resolver comes before any conversion error.
   */
  lemma IndexMetaFields(lib: Lib, parent: Element, nested: seq<Element>)
    ensures DescriptiveNames(lib, nested).Err? ==> ExtractIndexMeta(lib, parent, nested) == Err(DescriptiveNames(lib, nested).error)
    ensures DescriptiveNames(lib, nested).Ok? && !ValidName(lib, GroupName(parent)) ==>
      ExtractIndexMeta(lib, parent, nested) == Err(BadTypeName(GroupName(parent)))
    ensures DescriptiveNames(lib, nested).Ok? ==>
      (ExtractIndexMeta(lib, parent, nested).Ok? <==>
        ValidName(lib, GroupName(parent)) && forall i | 0 <= i < |nested| :: ParseValue(lib, Get(nested[i], "value")).Ok?)
    ensures ExtractIndexMeta(lib, parent, nested).Ok? ==>
      var g := ExtractIndexMeta(lib, parent, nested).value;
      && g.fields == Renamed(lib, DescriptiveNames(lib, nested).value)
      && (forall i | 0 <= i < |nested| :: DescriptiveName(lib, nested[i]) == Ok(DescriptiveNames(lib, nested).value[i]))
      && (forall i | 0 <= i < |nested| :: ParseValue(lib, Get(nested[i], "value")) == Ok(g.values[i]))
  {
    if DescriptiveNames(lib, nested).Ok? {
      var names := DescriptiveNames(lib, nested).value;
      var entries := seq(|nested|, i requires 0 <= i < |nested| => Entry(names[i], Get(nested[i], "value")));
      MakeGroupContents(lib, GroupName(parent), entries);
      assert seq(|entries|, i requires 0 <= i < |entries| => entries[i].name) == names;
    }
  }

  // ---------------------------------------------------------------------------
  // Sub-indexed values

  /**
   * The entries the children of a nested element contribute when it does not have
   * exactly one child: `<nested>_<child>` per child, in order. The nested element's
   * name is resolved again for every child.
   */
  function ChildEntries(lib: Lib, nested: Element, children: seq<Element>): (r: Result<seq<Entry>, PVError>)
    ensures r.Ok? ==> |r.value| == |children|
    decreases |children|
  {
    if children == [] then Ok([])
    else
      match ChildEntries(lib, nested, children[..|children| - 1])
      case Err(e) => Err(e)
      case Ok(front) =>
        match DescriptiveName(lib, nested)
        case Err(e) => Err(e)
        case Ok(outer) =>
          var child := children[|children| - 1];
          match DescriptiveName(lib, child)
          case Err(e) => Err(e)
          case Ok(inner) => Ok(front + [Entry(outer + "_" + inner, Get(child, "value"))])
  }

  /** The entries one nested element contributes to a sub-indexed group. */
  function Contribution(lib: Lib, nested: Element): Result<seq<Entry>, PVError> {
    if |nested.children| == 1 then
      match DescriptiveName(lib, nested)
      case Err(e) => Err(e)
      case Ok(name) => Ok([Entry(name, Get(nested.children[0], "value"))])
    else ChildEntries(lib, nested, nested.children)
  }

  /** The entries of all nested elements, in order, or the first KeyError. */
  function Contributions(lib: Lib, nested: seq<Element>): Result<seq<Entry>, PVError>
    decreases |nested|
  {
    if nested == [] then Ok([])
    else
      match Contributions(lib, nested[..|nested| - 1])
      case Err(e) => Err(e)
      case Ok(front) =>
        match Contribution(lib, nested[|nested| - 1])
        case Err(e) => Err(e)
        case Ok(more) => Ok(front + more)
  }

  /** `_extract_subindex_meta`, as a value. */
  function SubindexGroup(lib: Lib, parent: Element, nested: seq<Element>): Result<Group, PVError> {
    match Contributions(lib, nested)
    case Err(e) => Err(e)
    case Ok(entries) => MakeGroup(lib, GroupName(parent), entries)
  }

  /** Once a prefix of the children fails, so do all the children. */
  lemma {:induction false} ChildEntriesErrorStays(lib: Lib, nested: Element, children: seq<Element>, k: nat)
    requires k <= |children| && ChildEntries(lib, nested, children[..k]).Err?
    ensures ChildEntries(lib, nested, children) == ChildEntries(lib, nested, children[..k])
    decreases |children| - k
  {
    if k < |children| {
      assert children[..k + 1][..k] == children[..k];
      ChildEntriesErrorStays(lib, nested, children, k + 1);
    } else {
      assert children[..k] == children;
    }
  }

  /** Once a prefix of the nested elements fails, so do all of them. */
  lemma {:induction false} ContributionsErrorStays(lib: Lib, nested: seq<Element>, k: nat)
    requires k <= |nested| && Contributions(lib, nested[..k]).Err?
    ensures Contributions(lib, nested) == Contributions(lib, nested[..k])
    decreases |nested| - k
  {
    if k < |nested| {
      assert nested[..k + 1][..k] == nested[..k];
      ContributionsErrorStays(lib, nested, k + 1);
    } else {
      assert nested[..k] == nested;
    }
  }

  /** One more nested element: its contribution is appended, or its error is the result. */
  lemma ContributionsStep(lib: Lib, nested: seq<Element>, i: nat, entries: seq<Entry>)
    requires i < |nested| && Contributions(lib, nested[..i]) == Ok(entries)
    ensures Contribution(lib, nested[i]).Err? ==>
      Contributions(lib, nested[..i + 1]) == Err(Contribution(lib, nested[i]).error)
    ensures Contribution(lib, nested[i]).Ok? ==>
      Contributions(lib, nested[..i + 1]) == Ok(entries + Contribution(lib, nested[i]).value)
  {
    assert nested[..i + 1][..i] == nested[..i];
  }

  /** One more child: its entry is appended, or the first failing name is the result. */
  lemma ChildEntriesStep(lib: Lib, nested: Element, children: seq<Element>, j: nat)
    requires j < |children| && ChildEntries(lib, nested, children[..j]).Ok?
    ensures DescriptiveName(lib, nested).Err? ==>
      ChildEntries(lib, nested, children[..j + 1]) == Err(DescriptiveName(lib, nested).error)
    ensures DescriptiveName(lib, nested).Ok? && DescriptiveName(lib, children[j]).Err? ==>
      ChildEntries(lib, nested, children[..j + 1]) == Err(DescriptiveName(lib, children[j]).error)
    ensures DescriptiveName(lib, nested).Ok? && DescriptiveName(lib, children[j]).Ok? ==>
      ChildEntries(lib, nested, children[..j + 1]) == Ok(ChildEntries(lib, nested, children[..j]).value
        + [Entry(DescriptiveName(lib, nested).value + "_" + DescriptiveName(lib, children[j]).value, Get(children[j], "value"))])
  {
    assert children[..j + 1][..j] == children[..j];
  }

  /**
   * The inner loop of `_extract_subindex_meta`: a field `<nested>_<child>` and the
   * child's value are appended for every child of the nested element, in order.
   */
  method AppendChildEntries(lib: Lib, element: Element, entries: seq<Entry>) returns (r: Result<seq<Entry>, PVError>)
    ensures ChildEntries(lib, element, element.children).Err? ==>
      r == Err(ChildEntries(lib, element, element.children).error)
    ensures ChildEntries(lib, element, element.children).Ok? ==>
      r == Ok(entries + ChildEntries(lib, element, element.children).value)
  {
    var extended := entries;
    ghost var front: seq<Entry> := [];
    for j := 0 to |element.children|
      invariant ChildEntries(lib, element, element.children[..j]) == Ok(front)
      invariant extended == entries + front
    {
      var child := element.children[j];
      ChildEntriesStep(lib, element, element.children, j);
      var outer := DescriptiveName(lib, element);
      if outer.Err? {
        ChildEntriesErrorStays(lib, element, element.children, j + 1);
        return Err(outer.error);
      }
      var inner := DescriptiveName(lib, child);
      if inner.Err? {
        ChildEntriesErrorStays(lib, element, element.children, j + 1);
        return Err(inner.error);
      }
      var entry := Entry(outer.value + "_" + inner.value, Get(child, "value"));
      front := front + [entry];
      extended := extended + [entry];
    }
    assert element.children[..|element.children|] == element.children;
    r := Ok(extended);
  }

  /**
   * `_extract_subindex_meta`: nested loops append a field name and a value text for
   * every nested element with one child, and for every child of the others; the
   * tuple is then built as for indexed values.
   */
  method ExtractSubindexMeta(lib: Lib, parent: Element, nested: seq<Element>) returns (r: Result<Group, PVError>)
    ensures r == SubindexGroup(lib, parent, nested)
  {
    var name := GroupName(parent);
    var entries: seq<Entry> := [];
    for i := 0 to |nested|
      invariant Contributions(lib, nested[..i]) == Ok(entries)
    {
      var element := nested[i];
      ContributionsStep(lib, nested, i, entries);
      if |element.children| == 1 {
        var field := DescriptiveName(lib, element);
        if field.Err? {
          ContributionsErrorStays(lib, nested, i + 1);
          return Err(field.error);
        }
        entries := entries + [Entry(field.value, Get(element.children[0], "value"))];
      } else {
        var extended := AppendChildEntries(lib, element, entries);
        if extended.Err? {
          ContributionsErrorStays(lib, nested, i + 1);
          return Err(extended.error);
        }
        entries := extended.value;
      }
    }
    assert nested[..|nested|] == nested;
    r := MakeGroup(lib, name, entries);
  }

  /**
   * What the children of a nested element without exactly one child contribute
   * when every name resolves: one field per child, in order, named
   * `<nested>_<child>` and valued by that child's `value`.
   */
  lemma {:induction false} ChildEntriesNames(lib: Lib, nested: Element, children: seq<Element>)
    requires |children| > 0 ==> DescriptiveName(lib, nested).Ok?
    requires forall i | 0 <= i < |children| :: DescriptiveName(lib, children[i]).Ok?
    ensures ChildEntries(lib, nested, children).Ok?
    ensures forall i | 0 <= i < |children| ::
      ChildEntries(lib, nested, children).value[i] ==
        Entry(DescriptiveName(lib, nested).value + "_" + DescriptiveName(lib, children[i]).value, Get(children[i], "value"))
    decreases |children|
  {
    if children != [] {
      var front := children[..|children| - 1];
      ChildEntriesNames(lib, nested, front);
      assert forall i | 0 <= i < |front| :: front[i] == children[i];
    }
  }

  /**
   * A nested element's contribution: exactly one child gives one field named after
   * the nested element itself; otherwise each child gives `<nested>_<child>`, so
   * no child gives nothing, even when the nested element has no name.
   */
  lemma ContributionShape(lib: Lib, nested: Element)
    ensures |nested.children| == 1 && DescriptiveName(lib, nested).Ok? ==>
      Contribution(lib, nested) == Ok([Entry(DescriptiveName(lib, nested).value, Get(nested.children[0], "value"))])
    ensures |nested.children| == 0 ==> Contribution(lib, nested) == Ok([])
    ensures (|nested.children| >= 2 && DescriptiveName(lib, nested).Ok?
      && forall i | 0 <= i < |nested.children| :: DescriptiveName(lib, nested.children[i]).Ok?) ==>
      && Contribution(lib, nested).Ok?
      && |Contribution(lib, nested).value| == |nested.children|
      && forall i | 0 <= i < |nested.children| ::
        Contribution(lib, nested).value[i] ==
          Entry(DescriptiveName(lib, nested).value + "_" + DescriptiveName(lib, nested.children[i]).value,
                Get(nested.children[i], "value"))
  {
    if |nested.children| >= 2 && DescriptiveName(lib, nested).Ok?
      && (forall i | 0 <= i < |nested.children| :: DescriptiveName(lib, nested.children[i]).Ok?) {
      ChildEntriesNames(lib, nested, nested.children);
    }
  }

  /** How many fields a nested element contributes. */
  function Width(nested: Element): nat {
    if |nested.children| == 1 then 1 else |nested.children|
  }

  function TotalWidth(nested: seq<Element>): nat {
    if nested == [] then 0 else TotalWidth(nested[..|nested| - 1]) + Width(nested[|nested| - 1])
  }

  /** One nested element contributes as many entries as its width. */
  lemma ContributionWidth(lib: Lib, nested: Element)
    ensures Contribution(lib, nested).Ok? ==> |Contribution(lib, nested).value| == Width(nested)
  {
  }

  /** The entries of the nested elements number the sum of their widths. */
  lemma {:induction false} ContributionsArity(lib: Lib, nested: seq<Element>)
    ensures Contributions(lib, nested).Ok? ==> |Contributions(lib, nested).value| == TotalWidth(nested)
    decreases |nested|
  {
    if nested != [] {
      ContributionsArity(lib, nested[..|nested| - 1]);
      ContributionWidth(lib, nested[|nested| - 1]);
    }
  }

  /** The arity of a sub-indexed group is the sum of the contributions of its nested elements. */
  lemma SubindexArity(lib: Lib, parent: Element, nested: seq<Element>)
    ensures SubindexGroup(lib, parent, nested).Ok? ==> |SubindexGroup(lib, parent, nested).value.fields| == TotalWidth(nested)
  {
    ContributionsArity(lib, nested);
  }

  // ---------------------------------------------------------------------------
  // Frame times

  /** The frames that carry the attribute, in order. */
  function FramesWith(frames: seq<Element>, key: string): (r: seq<Element>)
    ensures |r| <= |frames|
    ensures forall x | x in r :: x in frames && Has(x, key)
    ensures forall x | x in frames && Has(x, key) :: x in r
  {
    if frames == [] then []
    else if Has(frames[0], key) then [frames[0]] + FramesWith(frames[1..], key)
    else FramesWith(frames[1..], key)
  }

  /**
   * `_collect_frame_times`: the float of `key` for exactly the `Frame` children
   * that carry it, in document order; at most one per `Frame` child, and the only
   * possible failure is a value that is not a number.
   */
  function CollectFrameTimes(lib: Lib, sequence: Element, key: string): (r: Result<seq<real>, PVError>)
    ensures r.Ok? <==> AllParse(lib, FramesWith(FindAll(sequence.children, "Frame"), key), key)
    ensures r.Ok? ==> |r.value| <= |FindAll(sequence.children, "Frame")|
    ensures r.Ok? ==> |r.value| == |FramesWith(FindAll(sequence.children, "Frame"), key)|
    ensures r.Ok? ==> forall i | 0 <= i < |r.value| ::
      var frame := FramesWith(FindAll(sequence.children, "Frame"), key)[i];
      frame.tag == "Frame" && lib.parseFloat(Get(frame, key).value) == Some(r.value[i])
    ensures r.Err? ==> r.error.MalformedValue?
  {
    FramesCarry(sequence.children, key);
    ParseAttribute(lib, FramesWith(FindAll(sequence.children, "Frame"), key), key)
  }

  /** The float of `key` on each of the elements, all of which carry it. */
  function ParseAttribute(lib: Lib, elements: seq<Element>, key: string): (r: Result<seq<real>, PVError>)
    requires forall i | 0 <= i < |elements| :: Get(elements[i], key).Some?
    ensures r.Ok? <==> AllParse(lib, elements, key)
    ensures r.Ok? ==> |r.value| == |elements|
    ensures r.Ok? ==> forall i | 0 <= i < |r.value| :: lib.parseFloat(Get(elements[i], key).value) == Some(r.value[i])
    ensures r.Err? ==> r.error.MalformedValue?
  {
    AttributeParsesExactly(lib, elements, key);
    ParseValues(lib, AttributeValues(elements, key))
  }

  /** `elem.attrib.get(key)` for each of the elements, in order. */
  function AttributeValues(elements: seq<Element>, key: string): (r: seq<Option<string>>)
    ensures |r| == |elements| && forall i | 0 <= i < |r| :: r[i] == Get(elements[i], key)
  {
    seq(|elements|, i requires 0 <= i < |elements| => Get(elements[i], key))
  }

  lemma AttributeParsesExactly(lib: Lib, elements: seq<Element>, key: string)
    requires forall i | 0 <= i < |elements| :: Get(elements[i], key).Some?
    ensures ParseValues(lib, AttributeValues(elements, key)).Ok? <==> AllParse(lib, elements, key)
  {
    var values := AttributeValues(elements, key);
    ParsesExactly(lib, values);
    assert AllParse(lib, elements, key) <==> forall i | 0 <= i < |values| :: lib.parseFloat(values[i].value).Some?;
  }

  /** Every one of the elements carries `key` with a value `float()` accepts. */
  predicate AllParse(lib: Lib, elements: seq<Element>, key: string)
    requires forall i | 0 <= i < |elements| :: Get(elements[i], key).Some?
  {
    forall i | 0 <= i < |elements| :: lib.parseFloat(Get(elements[i], key).value).Some?
  }

  /** Converting values that are all present succeeds exactly when each one parses. */
  lemma ParsesExactly(lib: Lib, values: seq<Option<string>>)
    requires forall i | 0 <= i < |values| :: values[i].Some?
    ensures ParseValues(lib, values).Ok? <==> forall i | 0 <= i < |values| :: lib.parseFloat(values[i].value).Some?
  {
    if ParseValues(lib, values).Err? {
      var i :| 0 <= i < |values| && ParseValue(lib, values[i]) == Err(ParseValues(lib, values).error);
      assert lib.parseFloat(values[i].value).None?;
    }
  }

  /** Every frame kept is a `Frame` element that carries the attribute. */
  lemma FramesCarry(children: seq<Element>, key: string)
    ensures forall i | 0 <= i < |FramesWith(FindAll(children, "Frame"), key)| ::
      var frame := FramesWith(FindAll(children, "Frame"), key)[i];
      frame.tag == "Frame" && Get(frame, key).Some?
  {
    var frames := FramesWith(FindAll(children, "Frame"), key);
    forall i | 0 <= i < |frames|
      ensures frames[i].tag == "Frame" && Get(frames[i], key).Some?
    {
      assert frames[i] in frames;
    }
  }
}
