/**
 * The imaging parameters of a PrairieView state file (records/prairieview.py):
 * the dictionary `get_pv_imaging_meta` assembles from the `PVStateValue`
 * elements of the `PVStateShard`, and its validation by `PVImagingMeta`.
 */
module PrairieViewImaging {
  import opened Wrappers
  import opened Xml
  import opened PrairieViewNames
  import opened PrairieViewGroups

  /** A value of the imaging dictionary: attribute text, or a named tuple. */
  datatype MetaValue = Plain(text: string) | Tuple(group: Group)

  /** One assignment `pv_meta[key] = value`. */
  datatype Write = Write(key: string, value: MetaValue)

  /** The dictionary a sequence of assignments leaves, starting from an empty one. */
  function ApplyWrites(ws: seq<Write>): map<string, MetaValue>
    decreases |ws|
  {
    if ws == [] then map[] else ApplyWrites(ws[..|ws| - 1])[ws[|ws| - 1].key := ws[|ws| - 1].value]
  }

  function KeysOf(ws: seq<Write>): set<string> {
    set w | w in ws :: w.key
  }

  /** The dictionary holds exactly the keys that were assigned. */
  lemma {:induction false} ApplyWritesKeys(ws: seq<Write>)
    ensures ApplyWrites(ws).Keys == KeysOf(ws)
    decreases |ws|
  {
    if ws != [] {
      var front := ws[..|ws| - 1];
      ApplyWritesKeys(front);
      assert ws == front + [ws[|ws| - 1]];
      assert KeysOf(ws) == KeysOf(front) + {ws[|ws| - 1].key};
    }
  }

  /** A key holds the value of its last assignment. */
  lemma {:induction false} LastWriteWins(a: seq<Write>, w: Write, b: seq<Write>)
    requires forall x | x in b :: x.key != w.key
    ensures w.key in ApplyWrites(a + [w] + b) && ApplyWrites(a + [w] + b)[w.key] == w.value
    decreases |b|
  {
    if b == [] {
      assert (a + [w] + b)[..|a|] == a;
    } else {
      var front := b[..|b| - 1];
      assert forall x | x in front :: x in b;
      LastWriteWins(a, w, front);
      assert (a + [w] + b)[..|a + [w] + b| - 1] == a + [w] + front;
      assert b[|b| - 1] in b;
    }
  }

  // ---------------------------------------------------------------------------
  // The assignments of `get_pv_imaging_meta`

  /** The slot a state value's grouped values go to: its `key`, or else its tag. */
  function SlotKey(e: Element): string {
    GetOr(e, "key", e.tag)
  }

  function IndexedValues(e: Element): seq<Element> {
    FindAll(e.children, "IndexedValue")
  }

  function SubindexedValues(e: Element): seq<Element> {
    FindAll(e.children, "SubindexedValues")
  }

  /** The state value has indexed or sub-indexed children. */
  predicate HasGroups(e: Element) {
    IndexedValues(e) != [] || SubindexedValues(e) != []
  }

  /** The dictionary comprehension's assignment for one state value: `attrib["key"]` fails when only `value` is present. */
  function PlainWrite(e: Element): (r: Result<seq<Write>, PVError>)
    ensures r.Ok? && Has(e, "value") ==> Get(e, "key").Some? && r.value == [Write(Get(e, "key").value, Plain(Get(e, "value").value))]
    ensures r.Ok? && !Has(e, "value") ==> r.value == []
  {
    match Get(e, "value")
    case None => Ok([])
    case Some(v) =>
      match Get(e, "key")
      case None => Err(MissingKey)
      case Some(k) => Ok([Write(k, Plain(v))])
  }

  /** The indexed tuple's assignment, made to the slot exactly when there are indexed children. */
  function IndexedWrite(lib: Lib, e: Element): (r: Result<seq<Write>, PVError>)
    ensures r.Ok? ==> forall x | x in r.value :: x.key == SlotKey(e) && HasGroups(e)
    ensures r.Ok? ==> (r.value != [] <==> IndexedValues(e) != [])
  {
    if IndexedValues(e) == [] then Ok([])
    else match ExtractIndexMeta(lib, e, IndexedValues(e))
      case Err(err) => Err(err)
      case Ok(g) => Ok([Write(SlotKey(e), Tuple(g))])
  }

  /** The sub-indexed tuple's assignment, made to the slot exactly when there are sub-indexed children. */
  function SubindexedWrite(lib: Lib, e: Element): (r: Result<seq<Write>, PVError>)
    ensures r.Ok? ==> forall x | x in r.value :: x.key == SlotKey(e) && HasGroups(e)
    ensures r.Ok? ==> (r.value != [] <==> SubindexedValues(e) != [])
  {
    if SubindexedValues(e) == [] then Ok([])
    else match SubindexGroup(lib, e, SubindexedValues(e))
      case Err(err) => Err(err)
      case Ok(g) => Ok([Write(SlotKey(e), Tuple(g))])
  }

  /** The loop body's assignments for one state value: the indexed tuple, then the sub-indexed one. */
  function SlotWrite(lib: Lib, e: Element): (r: Result<seq<Write>, PVError>)
    ensures r.Ok? ==> forall x | x in r.value :: x.key == SlotKey(e) && HasGroups(e)
    ensures r.Ok? && HasGroups(e) ==> r.value != []
    ensures r.Ok? && SubindexedValues(e) != [] ==>
      && SubindexGroup(lib, e, SubindexedValues(e)).Ok?
      && |r.value| > 0
      && r.value[|r.value| - 1] == Write(SlotKey(e), Tuple(SubindexGroup(lib, e, SubindexedValues(e)).value))
    ensures r.Ok? && SubindexedValues(e) == [] && IndexedValues(e) != [] ==>
      && ExtractIndexMeta(lib, e, IndexedValues(e)).Ok?
      && |r.value| > 0
      && r.value[|r.value| - 1] == Write(SlotKey(e), Tuple(ExtractIndexMeta(lib, e, IndexedValues(e)).value))
  {
    match IndexedWrite(lib, e)
    case Err(err) => Err(err)
    case Ok(first) =>
      match SubindexedWrite(lib, e)
      case Err(err) => Err(err)
      case Ok(second) => Ok(first + second)
  }

  /** What one pass over the state values assigns for one of them. */
  type Pass = Element -> Result<seq<Write>, PVError>

  /** The loop's pass, for a given library. */
  function SlotPass(lib: Lib): Pass {
    e => SlotWrite(lib, e)
  }

  /** A pass whose assignments all go to the slot of a state value with grouped children, and which assigns at least once for such a value. */
  ghost predicate SlotShaped(slot: Pass) {
    forall e :: slot(e).Ok? ==>
      && (forall x | x in slot(e).value :: x.key == SlotKey(e) && HasGroups(e))
      && (HasGroups(e) ==> slot(e).value != [])
  }

  lemma SlotPassShaped(lib: Lib)
    ensures SlotShaped(SlotPass(lib))
  {
    forall e | SlotPass(lib)(e).Ok?
      ensures forall x | x in SlotPass(lib)(e).value :: x.key == SlotKey(e) && HasGroups(e)
      ensures HasGroups(e) ==> SlotPass(lib)(e).value != []
    {
      assert SlotPass(lib)(e) == SlotWrite(lib, e);
    }
  }

  /** The assignments of one pass over the elements, in order, or its first failure. */
  function AllWrites(pass: Pass, elements: seq<Element>): Result<seq<Write>, PVError>
    decreases |elements|
  {
    if elements == [] then Ok([])
    else
      match AllWrites(pass, elements[..|elements| - 1])
      case Err(err) => Err(err)
      case Ok(front) =>
        match pass(elements[|elements| - 1])
        case Err(err) => Err(err)
        case Ok(more) => Ok(front + more)
  }

  /** One more element: the pass so far, then the element's own assignments. */
  lemma AllWritesSnoc(pass: Pass, elements: seq<Element>, i: nat)
    requires i < |elements|
    ensures AllWrites(pass, elements[..i + 1]) ==
      match AllWrites(pass, elements[..i])
      case Err(err) => Err(err)
      case Ok(front) =>
        match pass(elements[i])
        case Err(err) => Err(err)
        case Ok(more) => Ok(front + more)
  {
    assert elements[..i + 1][..i] == elements[..i];
  }

  /** Once a prefix of the elements fails, the pass fails with the same error. */
  lemma {:induction false} AllWritesErrorStays(pass: Pass, elements: seq<Element>, k: nat)
    requires k <= |elements| && AllWrites(pass, elements[..k]).Err?
    ensures AllWrites(pass, elements) == AllWrites(pass, elements[..k])
    decreases |elements| - k
  {
    if k < |elements| {
      assert elements[..k + 1][..k] == elements[..k];
      AllWritesErrorStays(pass, elements, k + 1);
    } else {
      assert elements[..k] == elements;
    }
  }

  /** A successful pass over two runs of elements is the two passes one after the other. */
  lemma {:induction false} AllWritesAppend(pass: Pass, a: seq<Element>, b: seq<Element>)
    requires AllWrites(pass, a + b).Ok?
    ensures AllWrites(pass, a).Ok? && AllWrites(pass, b).Ok?
    ensures AllWrites(pass, a + b).value == AllWrites(pass, a).value + AllWrites(pass, b).value
    decreases |b|
  {
    if b == [] {
      assert a + b == a;
    } else {
      var front := b[..|b| - 1];
      assert (a + b)[..|a + b| - 1] == a + front;
      assert (a + b)[|a + b| - 1] == b[|b| - 1];
      AllWritesAppend(pass, a, front);
    }
  }

  /** An assignment is in a successful pass exactly when it comes from one of the elements. */
  lemma {:induction false} AllWritesMembers(pass: Pass, elements: seq<Element>)
    requires AllWrites(pass, elements).Ok?
    ensures forall i | 0 <= i < |elements| :: pass(elements[i]).Ok?
    ensures forall x :: x in AllWrites(pass, elements).value <==>
      exists i | 0 <= i < |elements| :: x in pass(elements[i]).value
    decreases |elements|
  {
    if elements != [] {
      var front := elements[..|elements| - 1];
      AllWritesMembers(pass, front);
      assert forall i | 0 <= i < |front| :: front[i] == elements[i];
    }
  }

  lemma SingleElementWrites(pass: Pass, e: Element)
    ensures AllWrites(pass, [e]) == pass(e)
  {
    assert [e][..0] == [];
    assert AllWrites(pass, [e][..0]) == Ok([]);
    if pass(e).Ok? {
      assert [] + pass(e).value == pass(e).value;
    }
  }

  lemma CutAt(elements: seq<Element>, i: nat)
    requires i < |elements|
    ensures elements == elements[..i] + [elements[i]] + elements[i + 1..]
  {
  }

  /** The element `i` cuts the pass into the assignments before it, its own and those after it. */
  lemma AllWritesAround(pass: Pass, elements: seq<Element>, i: nat)
    requires i < |elements| && AllWrites(pass, elements).Ok?
    ensures AllWrites(pass, elements[..i]).Ok? && pass(elements[i]).Ok? && AllWrites(pass, elements[i + 1..]).Ok?
    ensures AllWrites(pass, elements).value ==
      AllWrites(pass, elements[..i]).value + pass(elements[i]).value + AllWrites(pass, elements[i + 1..]).value
  {
    var e := elements[i];
    CutAt(elements, i);
    AllWritesAppend(pass, elements[..i] + [e], elements[i + 1..]);
    AllWritesAppend(pass, elements[..i], [e]);
    SingleElementWrites(pass, e);
  }

  /** The dictionary of a plain pass followed by a slot pass. */
  function Assemble(slot: Pass, elements: seq<Element>): Result<map<string, MetaValue>, PVError> {
    match AllWrites(PlainWrite, elements)
    case Err(err) => Err(err)
    case Ok(plain) =>
      match AllWrites(slot, elements)
      case Err(err) => Err(err)
      case Ok(slots) => Ok(ApplyWrites(plain + slots))
  }

  /** `get_pv_imaging_meta`'s dictionary, as a value. */
  function ImagingValues(lib: Lib, elements: seq<Element>): Result<map<string, MetaValue>, PVError> {
    Assemble(SlotPass(lib), elements)
  }

  lemma ApplyWritesSnoc(ws: seq<Write>, w: Write)
    ensures ApplyWrites(ws + [w]) == ApplyWrites(ws)[w.key := w.value]
  {
    assert (ws + [w])[..|ws|] == ws;
  }

  /** One step of the loop: the state value's indexed and sub-indexed assignments extend the pass. */
  lemma SlotStep(lib: Lib, elements: seq<Element>, i: nat, first: seq<Write>, second: seq<Write>)
    requires i < |elements| && AllWrites(SlotPass(lib), elements[..i]).Ok?
    requires IndexedWrite(lib, elements[i]) == Ok(first) && SubindexedWrite(lib, elements[i]) == Ok(second)
    ensures AllWrites(SlotPass(lib), elements[..i + 1]) == Ok(AllWrites(SlotPass(lib), elements[..i]).value + first + second)
  {
    SlotPassOk(lib, elements[i], first, second);
    AllWritesSnoc(SlotPass(lib), elements, i);
    Regroup(AllWrites(SlotPass(lib), elements[..i]).value, first, second);
  }

  /** The loop's pass on one state value is its indexed and then its sub-indexed assignments. */
  lemma SlotPassOk(lib: Lib, e: Element, first: seq<Write>, second: seq<Write>)
    requires IndexedWrite(lib, e) == Ok(first) && SubindexedWrite(lib, e) == Ok(second)
    ensures SlotPass(lib)(e) == Ok(first + second)
  {
    assert SlotPass(lib)(e) == SlotWrite(lib, e);
  }

  /** A failing step of the loop fails the pass over the elements so far. */
  lemma SlotStepFails(lib: Lib, elements: seq<Element>, i: nat)
    requires i < |elements| && AllWrites(SlotPass(lib), elements[..i]).Ok?
    requires IndexedWrite(lib, elements[i]).Err? || (IndexedWrite(lib, elements[i]).Ok? && SubindexedWrite(lib, elements[i]).Err?)
    ensures AllWrites(SlotPass(lib), elements[..i + 1]) ==
      Err(if IndexedWrite(lib, elements[i]).Err? then IndexedWrite(lib, elements[i]).error else SubindexedWrite(lib, elements[i]).error)
  {
    AllWritesSnoc(SlotPass(lib), elements, i);
    assert SlotPass(lib)(elements[i]) == SlotWrite(lib, elements[i]);
  }

  lemma ConcatAssoc(a: seq<Write>, b: seq<Write>, c: seq<Write>, d: seq<Write>)
    ensures a + b + c + d == a + (b + c + d)
  {
  }

  lemma Regroup(a: seq<Write>, b: seq<Write>, c: seq<Write>)
    ensures a + b + c == a + (b + c)
  {
  }

  /**
   * The loop body of `get_pv_imaging_meta` for one state value: the indexed tuple,
   * then the sub-indexed tuple, are put in its slot of the dictionary.
   */
  method WriteSlot(lib: Lib, element: Element, pvMeta: map<string, MetaValue>, ghost ws: seq<Write>)
    returns (r: Result<map<string, MetaValue>, PVError>)
    requires pvMeta == ApplyWrites(ws)
    ensures IndexedWrite(lib, element).Err? ==> r == Err(IndexedWrite(lib, element).error)
    ensures IndexedWrite(lib, element).Ok? && SubindexedWrite(lib, element).Err? ==>
      r == Err(SubindexedWrite(lib, element).error)
    ensures IndexedWrite(lib, element).Ok? && SubindexedWrite(lib, element).Ok? ==>
      r == Ok(ApplyWrites(ws + IndexedWrite(lib, element).value + SubindexedWrite(lib, element).value))
  {
    var meta := pvMeta;
    ghost var done := ws;
    var indexed := FindAll(element.children, "IndexedValue");
    if |indexed| > 0 {
      var group := ExtractIndexMeta(lib, element, indexed);
      if group.Err? {
        return Err(group.error);
      }
      ApplyWritesSnoc(done, Write(SlotKey(element), Tuple(group.value)));
      done := done + [Write(SlotKey(element), Tuple(group.value))];
      meta := meta[SlotKey(element) := Tuple(group.value)];
    }
    assert done == ws + IndexedWrite(lib, element).value;
    var subindexed := FindAll(element.children, "SubindexedValues");
    if |subindexed| > 0 {
      var group := ExtractSubindexMeta(lib, element, subindexed);
      if group.Err? {
        return Err(group.error);
      }
      ApplyWritesSnoc(done, Write(SlotKey(element), Tuple(group.value)));
      done := done + [Write(SlotKey(element), Tuple(group.value))];
      meta := meta[SlotKey(element) := Tuple(group.value)];
    }
    assert done == ws + IndexedWrite(lib, element).value + SubindexedWrite(lib, element).value;
    r := Ok(meta);
  }

  /**
   * The dictionary of `get_pv_imaging_meta`: first `key -> value` for every state
   * value with a `value` attribute, then, state value by state value, the
   * indexed tuple and after it the sub-indexed tuple in its slot.
   */
  method AssembleImagingValues(lib: Lib, elements: seq<Element>) returns (r: Result<map<string, MetaValue>, PVError>)
    ensures r == ImagingValues(lib, elements)
  {
    var plain := AllWrites(PlainWrite, elements);
    if plain.Err? {
      return Err(plain.error);
    }
    var pvMeta := ApplyWrites(plain.value);
    ghost var slots: seq<Write> := [];
    ghost var ws := plain.value;
    for i := 0 to |elements|
      invariant AllWrites(SlotPass(lib), elements[..i]) == Ok(slots)
      invariant ws == plain.value + slots && pvMeta == ApplyWrites(ws)
    {
      var element := elements[i];
      var next := WriteSlot(lib, element, pvMeta, ws);
      if next.Err? {
        SlotStepFails(lib, elements, i);
        AllWritesErrorStays(SlotPass(lib), elements, i + 1);
        return Err(next.error);
      }
      ghost var first := IndexedWrite(lib, element).value;
      ghost var second := SubindexedWrite(lib, element).value;
      SlotStep(lib, elements, i, first, second);
      ConcatAssoc(plain.value, slots, first, second);
      slots := slots + first + second;
      ws := ws + first + second;
      pvMeta := next.value;
    }
    assert elements[..|elements|] == elements;
    r := Ok(pvMeta);
  }

  /** Every key the dictionary holds was assigned by a state value with a `value` or with grouped children. */
  lemma AssembleKeysAssigned(slot: Pass, elements: seq<Element>, k: string)
    requires SlotShaped(slot) && Assemble(slot, elements).Ok?
    requires k in Assemble(slot, elements).value
    ensures (exists i | 0 <= i < |elements| :: Has(elements[i], "value") && Get(elements[i], "key") == Some(k))
      || (exists i | 0 <= i < |elements| :: HasGroups(elements[i]) && SlotKey(elements[i]) == k)
  {
    var plain := AllWrites(PlainWrite, elements).value;
    var slots := AllWrites(slot, elements).value;
    ApplyWritesKeys(plain + slots);
    var x: Write :| x in plain + slots && x.key == k;
    if x in plain {
      AllWritesMembers(PlainWrite, elements);
      var i :| 0 <= i < |elements| && x in PlainWrite(elements[i]).value;
    } else {
      AllWritesMembers(slot, elements);
      var i :| 0 <= i < |elements| && x in slot(elements[i]).value;
    }
  }

  /** The `key` of a state value with a `value` is in the dictionary. */
  lemma AssembleHasPlainKey(slot: Pass, elements: seq<Element>, i: nat)
    requires Assemble(slot, elements).Ok?
    requires i < |elements| && Has(elements[i], "value")
    ensures Get(elements[i], "key").Some? && Get(elements[i], "key").value in Assemble(slot, elements).value
  {
    var plain := AllWrites(PlainWrite, elements).value;
    var slots := AllWrites(slot, elements).value;
    AllWritesAround(PlainWrite, elements, i);
    var x := PlainWrite(elements[i]).value[0];
    assert x in plain + slots;
    ApplyWritesKeys(plain + slots);
  }

  /** The slot of a state value with grouped children is in the dictionary. */
  lemma AssembleHasSlot(slot: Pass, elements: seq<Element>, i: nat)
    requires SlotShaped(slot) && Assemble(slot, elements).Ok?
    requires i < |elements| && HasGroups(elements[i])
    ensures SlotKey(elements[i]) in Assemble(slot, elements).value
  {
    var plain := AllWrites(PlainWrite, elements).value;
    var slots := AllWrites(slot, elements).value;
    AllWritesAround(slot, elements, i);
    var x := slot(elements[i]).value[0];
    assert x in plain + slots;
    ApplyWritesKeys(plain + slots);
  }

  /**
   * The keys of the dictionary: the `key` of every state value with a `value`,
   * and the slot of every state value with grouped children.
   */
  lemma ImagingValuesKeys(lib: Lib, elements: seq<Element>, k: string)
    requires ImagingValues(lib, elements).Ok?
    ensures k in ImagingValues(lib, elements).value <==>
      (exists i | 0 <= i < |elements| :: Has(elements[i], "value") && Get(elements[i], "key") == Some(k))
      || (exists i | 0 <= i < |elements| :: HasGroups(elements[i]) && SlotKey(elements[i]) == k)
  {
    SlotPassShaped(lib);
    if k in ImagingValues(lib, elements).value {
      AssembleKeysAssigned(SlotPass(lib), elements, k);
    }
    if exists i | 0 <= i < |elements| :: Has(elements[i], "value") && Get(elements[i], "key") == Some(k) {
      var i :| 0 <= i < |elements| && Has(elements[i], "value") && Get(elements[i], "key") == Some(k);
      AssembleHasPlainKey(SlotPass(lib), elements, i);
    }
    if exists i | 0 <= i < |elements| :: HasGroups(elements[i]) && SlotKey(elements[i]) == k {
      var i :| 0 <= i < |elements| && HasGroups(elements[i]) && SlotKey(elements[i]) == k;
      AssembleHasSlot(SlotPass(lib), elements, i);
    }
  }

  lemma LastOfOwn(p: seq<Write>, before: seq<Write>, own: seq<Write>, w: Write, rest: seq<Write>)
    ensures p + (before + (own + [w]) + rest) == p + before + own + [w] + rest
  {
  }

  /** The last assignment of a slot pass for a value with grouped children wins unless a later such value shares the slot. */
  lemma AssembleSlotWins(slot: Pass, elements: seq<Element>, i: nat)
    requires SlotShaped(slot) && Assemble(slot, elements).Ok?
    requires i < |elements| && HasGroups(elements[i])
    requires forall j | i < j < |elements| :: HasGroups(elements[j]) ==> SlotKey(elements[j]) != SlotKey(elements[i])
    ensures slot(elements[i]).Ok? && slot(elements[i]).value != []
    ensures SlotKey(elements[i]) in Assemble(slot, elements).value
    ensures Assemble(slot, elements).value[SlotKey(elements[i])] == slot(elements[i]).value[|slot(elements[i]).value| - 1].value
  {
    var e := elements[i];
    var after := elements[i + 1..];
    AllWritesAround(slot, elements, i);
    var own := slot(e).value;
    var w := own[|own| - 1];
    var rest := AllWrites(slot, after).value;
    AllWritesMembers(slot, after);
    forall x: Write | x in rest
      ensures x.key != w.key
    {
      var j :| 0 <= j < |after| && x in slot(after[j]).value;
      assert after[j] == elements[i + 1 + j];
    }
    var p := AllWrites(PlainWrite, elements).value;
    var before := AllWrites(slot, elements[..i]).value;
    var front := p + before + own[..|own| - 1];
    assert own == own[..|own| - 1] + [w];
    LastOfOwn(p, before, own[..|own| - 1], w, rest);
    LastWriteWins(front, w, rest);
  }

  /**
   * Grouped values beat plain ones and the sub-indexed tuple beats the indexed one:
   * the slot of a state value with grouped children holds its sub-indexed tuple
   * when it has one and its indexed tuple otherwise, unless a later state value
   * with grouped children uses the same slot.
   */
  lemma GroupedSlotWins(lib: Lib, elements: seq<Element>, i: nat)
    requires ImagingValues(lib, elements).Ok?
    requires i < |elements| && HasGroups(elements[i])
    requires forall j | i < j < |elements| :: HasGroups(elements[j]) ==> SlotKey(elements[j]) != SlotKey(elements[i])
    ensures SlotKey(elements[i]) in ImagingValues(lib, elements).value
    ensures SubindexedValues(elements[i]) != [] ==>
      && SubindexGroup(lib, elements[i], SubindexedValues(elements[i])).Ok?
      && ImagingValues(lib, elements).value[SlotKey(elements[i])] ==
        Tuple(SubindexGroup(lib, elements[i], SubindexedValues(elements[i])).value)
    ensures SubindexedValues(elements[i]) == [] ==>
      && ExtractIndexMeta(lib, elements[i], IndexedValues(elements[i])).Ok?
      && ImagingValues(lib, elements).value[SlotKey(elements[i])] ==
        Tuple(ExtractIndexMeta(lib, elements[i], IndexedValues(elements[i])).value)
  {
    SlotPassShaped(lib);
    AssembleSlotWins(SlotPass(lib), elements, i);
    assert SlotPass(lib)(elements[i]) == SlotWrite(lib, elements[i]);
  }

  /** No plain assignment after state value `i` uses a key that no later state value with a `value` has. */
  lemma LaterPlainKeys(elements: seq<Element>, i: nat, key: string)
    requires i < |elements| && AllWrites(PlainWrite, elements[i + 1..]).Ok?
    requires forall j | i < j < |elements| :: Has(elements[j], "value") ==> Get(elements[j], "key") != Some(key)
    ensures forall x | x in AllWrites(PlainWrite, elements[i + 1..]).value :: x.key != key
  {
    var after := elements[i + 1..];
    AllWritesMembers(PlainWrite, after);
    forall x | x in AllWrites(PlainWrite, after).value
      ensures x.key != key
    {
      var j :| 0 <= j < |after| && x in PlainWrite(after[j]).value;
      assert after[j] == elements[i + 1 + j];
    }
  }

  /** No slot assignment uses a key that is no slot of a state value with grouped children. */
  lemma SlotKeysAvoid(slot: Pass, elements: seq<Element>, key: string)
    requires SlotShaped(slot) && AllWrites(slot, elements).Ok?
    requires forall j | 0 <= j < |elements| :: HasGroups(elements[j]) ==> Some(SlotKey(elements[j])) != Some(key)
    ensures forall x | x in AllWrites(slot, elements).value :: x.key != key
  {
    AllWritesMembers(slot, elements);
    forall x | x in AllWrites(slot, elements).value
      ensures x.key != key
    {
      var j :| 0 <= j < |elements| && x in slot(elements[j]).value;
    }
  }

  /** A plain assignment survives when no later plain one and no slot assignment uses its key. */
  lemma AssemblePlainKept(slot: Pass, elements: seq<Element>, i: nat)
    requires SlotShaped(slot) && Assemble(slot, elements).Ok?
    requires i < |elements| && Has(elements[i], "value")
    requires forall j | i < j < |elements| :: Has(elements[j], "value") ==> Get(elements[j], "key") != Get(elements[i], "key")
    requires forall j | 0 <= j < |elements| :: HasGroups(elements[j]) ==> Some(SlotKey(elements[j])) != Get(elements[i], "key")
    ensures Get(elements[i], "key").Some? && Get(elements[i], "key").value in Assemble(slot, elements).value
    ensures Assemble(slot, elements).value[Get(elements[i], "key").value] == Plain(Get(elements[i], "value").value)
  {
    var e := elements[i];
    AllWritesAround(PlainWrite, elements, i);
    var before := AllWrites(PlainWrite, elements[..i]).value;
    var later := AllWrites(PlainWrite, elements[i + 1..]).value;
    var s := AllWrites(slot, elements).value;
    var key := Get(e, "key").value;
    var w := Write(key, Plain(Get(e, "value").value));
    assert AllWrites(PlainWrite, elements).value == before + [w] + later;
    assert forall x: Write | x in later + s :: x.key != key by {
      LaterPlainKeys(elements, i, key);
      SlotKeysAvoid(slot, elements, key);
    }
    assert Assemble(slot, elements).value == ApplyWrites(before + [w] + (later + s)) by {
      Regroup(before + [w], later, s);
    }
    LastWriteWins(before, w, later + s);
  }

  /**
   * A plain value survives: the `key -> value` of a state value stays in the
   * dictionary when no later state value with a `value` has the same key and no
   * state value with grouped children uses it as its slot.
   */
  lemma PlainValueKept(lib: Lib, elements: seq<Element>, i: nat)
    requires ImagingValues(lib, elements).Ok?
    requires i < |elements| && Has(elements[i], "value")
    requires forall j | i < j < |elements| :: Has(elements[j], "value") ==> Get(elements[j], "key") != Get(elements[i], "key")
    requires forall j | 0 <= j < |elements| :: HasGroups(elements[j]) ==> Some(SlotKey(elements[j])) != Get(elements[i], "key")
    ensures Get(elements[i], "key").Some? && Get(elements[i], "key").value in ImagingValues(lib, elements).value
    ensures ImagingValues(lib, elements).value[Get(elements[i], "key").value] == Plain(Get(elements[i], "value").value)
  {
    SlotPassShaped(lib);
    AssemblePlainKept(SlotPass(lib), elements, i);
  }

  // ---------------------------------------------------------------------------
  // Validation by PVImagingMeta

  /** The fields of `PVImagingMeta`, in declaration order. */
  const ImagingFieldNames: seq<string> := [
    "active_mode", "bit_depth", "current_scan_amplitude", "current_scan_center", "daq_gain",
    "frame_period", "dwell_time", "interlaced_scan_track_count", "laser_power", "lines_per_frame",
    "max_voltage", "microns_per_pixel", "min_voltage", "objective_lens", "objective_lens_mag",
    "objective_lens_na", "optical_zoom", "pixels_per_line", "pmt_gain", "position_current",
    "preamp_filter", "preamp_gain", "preamp_offset", "rotation", "samples_per_pixel",
    "scan_line_period", "use_interlaced_scan_pattern", "x_y_stage_grid_index",
    "x_y_stage_grid_x_index", "x_y_stage_grid_y_index", "y_aspect_expansion", "z_device"]

  /** The fields whose validator requires a tuple. */
  const GroupedFieldNames: seq<string> := [
    "laser_power", "microns_per_pixel", "pmt_gain", "position_current", "current_scan_amplitude",
    "current_scan_center", "daq_gain", "max_voltage", "min_voltage", "preamp_gain", "preamp_offset"]

  /** The dictionary key a field is read from: the explicit alias, or the generated camel-case one. */
  function FieldAlias(lib: Lib, name: string): string {
    if name == "objective_lens_na" then "objectiveLensNA" else CamelAlias(lib, name)
  }

  /** How one field fares in validation. */
  datatype Check = Accepted(value: MetaValue) | Missing | WrongType | TupleRequired

  /**
   * A missing key fails the field; a grouped field accepts only a tuple and raises
   * TypeError otherwise; a scalar field rejects a tuple.
   */
  function CheckField(lib: Lib, raw: map<string, MetaValue>, name: string): Check {
    var alias := FieldAlias(lib, name);
    if alias !in raw then Missing
    else if name in GroupedFieldNames then
      (if raw[alias].Tuple? then Accepted(raw[alias]) else TupleRequired)
    else if raw[alias].Plain? then Accepted(raw[alias]) else WrongType
  }

  /**
   * The fields in order: the first that raises TypeError ends validation at once;
   * otherwise the list of fields that failed.
   */
  function Scan(lib: Lib, raw: map<string, MetaValue>, names: seq<string>): (r: Result<seq<string>, PVError>)
    ensures r.Ok? ==> forall n | n in names :: !CheckField(lib, raw, n).TupleRequired?
    ensures r.Ok? ==> forall n | n in names :: n in r.value <==> !CheckField(lib, raw, n).Accepted?
    ensures r.Ok? ==> forall n | n in r.value :: n in names
    ensures r.Err? ==> exists i | 0 <= i < |names| ::
      && CheckField(lib, raw, names[i]).TupleRequired?
      && r.error == NotATuple(names[i])
      && forall j | 0 <= j < i :: !CheckField(lib, raw, names[j]).TupleRequired?
  {
    if names == [] then Ok([])
    else
      match CheckField(lib, raw, names[0])
      case TupleRequired => Err(NotATuple(names[0]))
      case Accepted(_) =>
        var rest := Scan(lib, raw, names[1..]);
        assert forall i | 1 <= i < |names| :: names[i] == names[1..][i - 1];
        rest
      case _ =>
        var rest := Scan(lib, raw, names[1..]);
        assert forall i | 1 <= i < |names| :: names[i] == names[1..][i - 1];
        match rest
        case Err(err) => Err(err)
        case Ok(failed) => Ok([names[0]] + failed)
  }

  /** A validated `PVImagingMeta`: field name to value. */
  datatype ImagingMeta = ImagingMeta(fields: map<string, MetaValue>)

  /** Validation of a dictionary against a list of fields. */
  function ValidateFields(lib: Lib, raw: map<string, MetaValue>, names: seq<string>): Result<ImagingMeta, PVError> {
    match Scan(lib, raw, names)
    case Err(err) => Err(err)
    case Ok(failed) =>
      if failed != [] then Err(ValidationFailed(failed))
      else Ok(ImagingMeta(map n | n in names && FieldAlias(lib, n) in raw :: raw[FieldAlias(lib, n)]))
  }

  /** `PVImagingMeta(**pv_meta)`. */
  function ValidateImaging(lib: Lib, raw: map<string, MetaValue>): Result<ImagingMeta, PVError> {
    ValidateFields(lib, raw, ImagingFieldNames)
  }

  lemma ValidateFieldsMeaning(lib: Lib, raw: map<string, MetaValue>, names: seq<string>)
    ensures ValidateFields(lib, raw, names).Ok? <==> forall n | n in names :: CheckField(lib, raw, n).Accepted?
    ensures ValidateFields(lib, raw, names).Ok? ==>
      && ValidateFields(lib, raw, names).value.fields.Keys == set n | n in names
      && forall n | n in names :: ValidateFields(lib, raw, names).value.fields[n] == raw[FieldAlias(lib, n)]
    ensures forall n | n in names && CheckField(lib, raw, n).TupleRequired? :: ValidateFields(lib, raw, names).Err?
    ensures ValidateFields(lib, raw, names).Err? && ValidateFields(lib, raw, names).error.NotATuple? ==>
      CheckField(lib, raw, ValidateFields(lib, raw, names).error.field).TupleRequired?
  {
    var r := Scan(lib, raw, names);
    if r.Ok? && r.value != [] {
      assert r.value[0] in r.value;
    }
  }

  /** Every grouped field is a field of the model. */
  lemma GroupedAreFields()
    ensures forall n | n in GroupedFieldNames :: n in ImagingFieldNames
  {
    forall n | n in GroupedFieldNames
      ensures n in ImagingFieldNames
    {
      assert GroupedFieldNames[0] == ImagingFieldNames[8];
      assert GroupedFieldNames[1] == ImagingFieldNames[11];
      assert GroupedFieldNames[2] == ImagingFieldNames[18];
      assert GroupedFieldNames[3] == ImagingFieldNames[19];
      assert GroupedFieldNames[4] == ImagingFieldNames[2];
      assert GroupedFieldNames[5] == ImagingFieldNames[3];
      assert GroupedFieldNames[6] == ImagingFieldNames[4];
      assert GroupedFieldNames[7] == ImagingFieldNames[10];
      assert GroupedFieldNames[8] == ImagingFieldNames[12];
      assert GroupedFieldNames[9] == ImagingFieldNames[21];
      assert GroupedFieldNames[10] == ImagingFieldNames[22];
    }
  }

  /**
   * Validation succeeds exactly when every field is present with a value of its
   * kind, and then every field holds the value under its alias (the numerical
   * aperture under `objectiveLensNA`).
   */
  lemma ValidateImagingMeaning(lib: Lib, raw: map<string, MetaValue>)
    ensures ValidateImaging(lib, raw).Ok? <==>
      forall n | n in ImagingFieldNames :: CheckField(lib, raw, n).Accepted?
    ensures ValidateImaging(lib, raw).Ok? ==>
      && ValidateImaging(lib, raw).value.fields.Keys == set n | n in ImagingFieldNames
      && (forall n | n in ImagingFieldNames :: ValidateImaging(lib, raw).value.fields[n] == raw[FieldAlias(lib, n)])
  {
    ValidateFieldsMeaning(lib, raw, ImagingFieldNames);
  }

  lemma ApertureIsField()
    ensures "objective_lens_na" in ImagingFieldNames
  {
    assert ImagingFieldNames[15] == "objective_lens_na";
  }

  lemma AcceptedFieldRead(lib: Lib, raw: map<string, MetaValue>, names: seq<string>, n: string)
    requires n in names && ValidateFields(lib, raw, names).Ok?
    ensures FieldAlias(lib, n) in raw
    ensures n in ValidateFields(lib, raw, names).value.fields
      && ValidateFields(lib, raw, names).value.fields[n] == raw[FieldAlias(lib, n)]
  {
    ValidateFieldsMeaning(lib, raw, names);
    assert CheckField(lib, raw, n).Accepted?;
  }

  /** The numerical aperture is read from `objectiveLensNA`, whatever `to_camel` makes of its name. */
  lemma NumericalApertureAlias(lib: Lib, raw: map<string, MetaValue>)
    requires ValidateImaging(lib, raw).Ok?
    ensures "objectiveLensNA" in raw
    ensures "objective_lens_na" in ValidateImaging(lib, raw).value.fields
      && ValidateImaging(lib, raw).value.fields["objective_lens_na"] == raw["objectiveLensNA"]
  {
    ApertureIsField();
    AcceptedFieldRead(lib, raw, ImagingFieldNames, "objective_lens_na");
    assert FieldAlias(lib, "objective_lens_na") == "objectiveLensNA";
  }

  /**
   * A grouped field given plain text always fails validation, with TypeError
   * from the first such field unless an earlier one raised.
   */
  lemma PlainGroupedFieldFails(lib: Lib, raw: map<string, MetaValue>)
    ensures forall n | n in GroupedFieldNames && FieldAlias(lib, n) in raw && raw[FieldAlias(lib, n)].Plain? ::
      ValidateImaging(lib, raw).Err?
    ensures ValidateImaging(lib, raw).Err? && ValidateImaging(lib, raw).error.NotATuple? ==>
      var n := ValidateImaging(lib, raw).error.field;
      n in GroupedFieldNames && FieldAlias(lib, n) in raw && raw[FieldAlias(lib, n)].Plain?
  {
    GroupedAreFields();
    ValidateFieldsMeaning(lib, raw, ImagingFieldNames);
  }

  // ---------------------------------------------------------------------------
  // get_pv_imaging_meta

  /** The result of `get_pv_imaging_meta`, as a value: None for an empty dictionary. */
  function ImagingMetaOf(lib: Lib, root: Element): Result<Option<ImagingMeta>, PVError> {
    match Find(root, "PVStateShard")
    case None => Err(MissingElement("PVStateShard"))
    case Some(shard) =>
      match ImagingValues(lib, FindAll(shard.children, "PVStateValue"))
      case Err(err) => Err(err)
      case Ok(raw) =>
        if raw == map[] then Ok(None)
        else match ValidateImaging(lib, raw)
          case Err(err) => Err(err)
          case Ok(meta) => Ok(Some(meta))
  }

  /** `get_pv_imaging_meta`. */
  method GetImagingMeta(lib: Lib, root: Element) returns (r: Result<Option<ImagingMeta>, PVError>)
    ensures r == ImagingMetaOf(lib, root)
  {
    var shard := Find(root, "PVStateShard");
    if shard.None? {
      return Err(MissingElement("PVStateShard"));
    }
    var elements := FindAll(shard.value.children, "PVStateValue");
    var raw := AssembleImagingValues(lib, elements);
    if raw.Err? {
      return Err(raw.error);
    }
    if raw.value == map[] {
      return Ok(None);
    }
    var meta := ValidateImaging(lib, raw.value);
    if meta.Err? {
      return Err(meta.error);
    }
    r := Ok(Some(meta.value));
  }

  /** The dictionary stays empty exactly when no state value has a `value` attribute or grouped children. */
  lemma AssembleEmpty(slot: Pass, elements: seq<Element>)
    requires SlotShaped(slot) && Assemble(slot, elements).Ok?
    ensures Assemble(slot, elements).value == map[] <==>
      forall i | 0 <= i < |elements| :: !Has(elements[i], "value") && !HasGroups(elements[i])
  {
    var raw := Assemble(slot, elements).value;
    if raw != map[] {
      var k :| k in raw;
      AssembleKeysAssigned(slot, elements, k);
    }
    if exists i | 0 <= i < |elements| :: Has(elements[i], "value") || HasGroups(elements[i]) {
      var i :| 0 <= i < |elements| && (Has(elements[i], "value") || HasGroups(elements[i]));
      if Has(elements[i], "value") {
        AssembleHasPlainKey(slot, elements, i);
      } else {
        AssembleHasSlot(slot, elements, i);
      }
    }
  }

  /**
   * The result is None exactly when no state value has a `value` attribute or
   * grouped children, that is, when the dictionary stays empty.
   */
  lemma ImagingNoneWhenEmpty(lib: Lib, root: Element)
    requires Find(root, "PVStateShard").Some?
    requires ImagingValues(lib, FindAll(Find(root, "PVStateShard").value.children, "PVStateValue")).Ok?
    ensures ImagingMetaOf(lib, root) == Ok(None) <==>
      var elements := FindAll(Find(root, "PVStateShard").value.children, "PVStateValue");
      forall i | 0 <= i < |elements| :: !Has(elements[i], "value") && !HasGroups(elements[i])
  {
    var elements := FindAll(Find(root, "PVStateShard").value.children, "PVStateValue");
    NoneOnlyWhenEmpty(lib, root);
    SlotPassShaped(lib);
    AssembleEmpty(SlotPass(lib), elements);
  }

  /** The section is None exactly when the dictionary it would be built from is empty. */
  lemma NoneOnlyWhenEmpty(lib: Lib, root: Element)
    requires Find(root, "PVStateShard").Some?
    requires ImagingValues(lib, FindAll(Find(root, "PVStateShard").value.children, "PVStateValue")).Ok?
    ensures ImagingMetaOf(lib, root) == Ok(None) <==>
      ImagingValues(lib, FindAll(Find(root, "PVStateShard").value.children, "PVStateValue")).value == map[]
  {
    var raw := ImagingValues(lib, FindAll(Find(root, "PVStateShard").value.children, "PVStateValue")).value;
    if raw != map[] {
      assert ImagingMetaOf(lib, root).Err? || ImagingMetaOf(lib, root).value.Some?;
    }
  }
}
