/**
 * The sections of a PrairieView metadata file (records/prairieview.py): the
 * session attributes, the system identifier, the sequence counts and frame-time
 * matrices, and the selector `load_metadata` that returns one section or all of
 * them. The imaging section is in PrairieViewImaging.
 */
module PrairieViewSections {
  import opened Wrappers
  import opened Xml
  import opened PrairieViewNames
  import opened PrairieViewGroups
  import opened PrairieViewImaging

  // ---------------------------------------------------------------------------
  // Session

  /** A validated `PVSession`; attributes other than these three are ignored. */
  datatype Session = Session(version: string, date: string, notes: Option<string>)

  /** The required fields of `PVSession` that the root element lacks, in declaration order. */
  function MissingSessionFields(root: Element): seq<string> {
    (if Get(root, "version").None? then ["version"] else [])
    + (if Get(root, "date").None? then ["date"] else [])
  }

  /** `get_pv_session_meta`: `PVSession(**dict(root.items()))`. */
  function SessionMeta(root: Element): Result<Session, PVError> {
    var missing := MissingSessionFields(root);
    if missing != [] then Err(ValidationFailed(missing))
    else Ok(Session(Get(root, "version").value, Get(root, "date").value, Get(root, "notes")))
  }

  /**
   * The session is read from the root's own attributes: it validates exactly when
   * `version` and `date` are present, and then carries them and the optional
   * `notes`; otherwise the error names each missing field, version before date.
   */
  lemma SessionMetaMeaning(root: Element)
    ensures SessionMeta(root).Ok? <==> Has(root, "version") && Has(root, "date")
    ensures SessionMeta(root).Ok? ==>
      && SessionMeta(root).value.version == Get(root, "version").value
      && SessionMeta(root).value.date == Get(root, "date").value
      && SessionMeta(root).value.notes == Get(root, "notes")
    ensures SessionMeta(root).Err? ==>
      && SessionMeta(root).error.ValidationFailed?
      && ("version" in SessionMeta(root).error.fields <==> !Has(root, "version"))
      && ("date" in SessionMeta(root).error.fields <==> !Has(root, "date"))
      && (!Has(root, "version") ==> SessionMeta(root).error.fields[0] == "version")
  {
    assert "version" != "date";
  }

  /** Only `version`, `date` and `notes` matter: other attributes and the children are ignored. */
  lemma SessionIgnoresTheRest(a: Element, b: Element)
    requires Get(a, "version") == Get(b, "version") && Get(a, "date") == Get(b, "date")
    requires Get(a, "notes") == Get(b, "notes")
    ensures SessionMeta(a) == SessionMeta(b)
  {
  }

  // ---------------------------------------------------------------------------
  // System identifier

  /** A validated `PVSystemID`. */
  datatype SystemId = SystemId(serialId: string)

  /**
   * The dictionary `get_pv_system_id` builds: the `SystemID` attribute of the
   * `SystemIDs` element under its tag, then that attribute of every `SystemID`
   * child under the child's tag, so the last child wins.
   */
  function SystemIdEntries(ids: Element): (r: map<string, Option<string>>)
    requires ids.tag == "SystemIDs"
    ensures "SystemIDs" in r
  {
    var children := FindAll(ids.children, "SystemID");
    if children == [] then map["SystemIDs" := Get(ids, "SystemID")]
    else map["SystemIDs" := Get(ids, "SystemID"), "SystemID" := Get(children[|children| - 1], "SystemID")]
  }

  /** `PVSystemID(**pv_meta)`: the explicit alias `SystemIDs` names the only field, which must be a string. */
  function ValidateSystemId(raw: map<string, Option<string>>): (r: Result<SystemId, PVError>)
    ensures r.Ok? <==> "SystemIDs" in raw && raw["SystemIDs"].Some?
    ensures r.Ok? ==> r.value.serialId == raw["SystemIDs"].value
    ensures r.Err? ==> r.error == ValidationFailed(["serial_id"])
  {
    if "SystemIDs" in raw && raw["SystemIDs"].Some? then Ok(SystemId(raw["SystemIDs"].value))
    else Err(ValidationFailed(["serial_id"]))
  }

  /** `get_pv_system_id`, as a value. */
  function SystemIdOf(root: Element): Result<SystemId, PVError> {
    match Find(root, "SystemIDs")
    case None => Err(MissingElement("SystemIDs"))
    case Some(ids) => ValidateSystemId(SystemIdEntries(ids))
  }

  /** `get_pv_system_id`: the dictionary is filled by `update`, one child at a time. */
  method GetSystemId(root: Element) returns (r: Result<SystemId, PVError>)
    ensures r == SystemIdOf(root)
  {
    var found := Find(root, "SystemIDs");
    if found.None? {
      return Err(MissingElement("SystemIDs"));
    }
    var ids := found.value;
    var pvMeta: map<string, Option<string>> := map[ids.tag := Get(ids, "SystemID")];
    var children := FindAll(ids.children, "SystemID");
    for i := 0 to |children|
      invariant "SystemIDs" in pvMeta && pvMeta["SystemIDs"] == Get(ids, "SystemID")
      invariant i == 0 ==> pvMeta == map["SystemIDs" := Get(ids, "SystemID")]
      invariant i > 0 ==> pvMeta == map["SystemIDs" := Get(ids, "SystemID"), "SystemID" := Get(children[i - 1], "SystemID")]
    {
      assert children[i] in children;
      pvMeta := pvMeta[children[i].tag := Get(children[i], "SystemID")];
    }
    r := ValidateSystemId(pvMeta);
  }

  /**
   * The serial identifier is the `SystemID` attribute of the `SystemIDs` element
   * itself; the `SystemID` children never change the result.
   */
  lemma SerialIsOwnAttribute(root: Element)
    ensures Find(root, "SystemIDs").None? ==> SystemIdOf(root) == Err(MissingElement("SystemIDs"))
    ensures Find(root, "SystemIDs").Some? ==>
      var ids := Find(root, "SystemIDs").value;
      && (SystemIdOf(root).Ok? <==> Has(ids, "SystemID"))
      && (SystemIdOf(root).Ok? ==> SystemIdOf(root).value.serialId == Get(ids, "SystemID").value)
      && (SystemIdOf(root).Err? ==> SystemIdOf(root).error == ValidationFailed(["serial_id"]))
  {
  }

  /** The children land under the key `SystemID`, with the value of the last one. */
  lemma ChildrenUnderSystemID(ids: Element)
    requires ids.tag == "SystemIDs"
    ensures "SystemID" in SystemIdEntries(ids) <==> exists c | c in ids.children :: c.tag == "SystemID"
    ensures "SystemID" in SystemIdEntries(ids) ==>
      var children := FindAll(ids.children, "SystemID");
      SystemIdEntries(ids)["SystemID"] == Get(children[|children| - 1], "SystemID")
  {
    var children := FindAll(ids.children, "SystemID");
    if children != [] {
      assert children[0] in children;
    }
  }

  // ---------------------------------------------------------------------------
  // Sequence

  /** A validated `PVSequenceMeta`. */
  datatype SequenceMeta = SequenceMeta(numPlanes: nat, numChannels: nat, relativeFrameTimes: seq<seq<real>>, absoluteFrameTimes: seq<seq<real>>)

  /** The row of each child, in order, or the first failure. */
  function Rows(row: Element -> Result<seq<real>, PVError>, children: seq<Element>): (r: Result<seq<seq<real>>, PVError>)
    ensures r.Ok? ==> |r.value| == |children|
    ensures r.Ok? ==> forall i | 0 <= i < |children| :: row(children[i]) == Ok(r.value[i])
    ensures r.Err? ==> exists i | 0 <= i < |children| ::
      row(children[i]) == Err(r.error) && forall j | 0 <= j < i :: row(children[j]).Ok?
  {
    if children == [] then Ok([])
    else
      match row(children[0])
      case Err(e) => Err(e)
      case Ok(first) =>
        match Rows(row, children[1..])
        case Err(e) =>
          assert forall i | 1 <= i < |children| :: children[i] == children[1..][i - 1];
          Err(e)
        case Ok(rest) =>
          assert forall i | 1 <= i < |children| :: children[i] == children[1..][i - 1];
          Ok([first] + rest)
  }

  /** `[_collect_frame_times(child, key) for child in sequence]`. */
  function FrameTimeRows(lib: Lib, children: seq<Element>, key: string): (r: Result<seq<seq<real>>, PVError>)
    ensures r.Err? ==> r.error.MalformedValue?
  {
    Rows(child => CollectFrameTimes(lib, child, key), children)
  }

  /** The rows have one common length, and there is at least one. */
  predicate Rectangular(rows: seq<seq<real>>) {
    |rows| >= 1 && forall i | 0 <= i < |rows| :: |rows[i]| == |rows[0]|
  }

  /** `np.vstack(rows).tolist()`: ValueError for no rows or rows of different lengths. */
  function Stack(rows: seq<seq<real>>): (r: Result<seq<seq<real>>, PVError>)
    ensures r.Ok? <==> Rectangular(rows)
    ensures r.Ok? ==> r.value == rows
    ensures r.Err? ==> r.error == ShapeMismatch
  {
    if Rectangular(rows) then Ok(rows) else Err(ShapeMismatch)
  }

  /** The frame-time matrix for one attribute: a row per child of the sequence, stacked. */
  function FrameTimes(lib: Lib, sequence: Element, key: string): (r: Result<seq<seq<real>>, PVError>)
    ensures r.Err? ==> r.error.MalformedValue? || r.error == ShapeMismatch
  {
    match FrameTimeRows(lib, sequence.children, key)
    case Err(e) => Err(e)
    case Ok(rows) => Stack(rows)
  }

  /**
   * `get_pv_sequence_meta`: the counts from the first frame of the first
   * sequence, then the relative and the absolute frame times.
   */
  function SequenceMetaOf(lib: Lib, root: Element): Result<SequenceMeta, PVError> {
    match Find(root, "Sequence")
    case None => Err(MissingElement("Sequence"))
    case Some(sequence) =>
      match Find(sequence, "Frame")
      case None => Err(MissingElement("Frame"))
      case Some(first) =>
        match FrameTimes(lib, sequence, "relativeTime")
        case Err(e) => Err(e)
        case Ok(relative) =>
          match FrameTimes(lib, sequence, "absoluteTime")
          case Err(e) => Err(e)
          case Ok(absolute) =>
            Ok(SequenceMeta(|first.children|, |FindAll(first.children, "File")|, relative, absolute))
  }

  /**
   * What a sequence section holds: the number of all children and of the `File`
   * children of the first frame, and two rectangular matrices with one row per
   * child of the sequence, row i being the frame times collected from child i.
   */
  lemma SequenceMetaShape(lib: Lib, root: Element)
    requires SequenceMetaOf(lib, root).Ok?
    ensures Find(root, "Sequence").Some? && Find(Find(root, "Sequence").value, "Frame").Some?
    ensures
      var sequence := Find(root, "Sequence").value;
      var first := Find(sequence, "Frame").value;
      var meta := SequenceMetaOf(lib, root).value;
      && meta.numPlanes == |first.children|
      && meta.numChannels == |FindAll(first.children, "File")|
      && Rectangular(meta.relativeFrameTimes) && Rectangular(meta.absoluteFrameTimes)
      && |meta.relativeFrameTimes| == |sequence.children| == |meta.absoluteFrameTimes|
      && (forall i | 0 <= i < |sequence.children| ::
            CollectFrameTimes(lib, sequence.children[i], "relativeTime") == Ok(meta.relativeFrameTimes[i]))
      && (forall i | 0 <= i < |sequence.children| ::
            CollectFrameTimes(lib, sequence.children[i], "absoluteTime") == Ok(meta.absoluteFrameTimes[i]))
  {
  }

  /** Rows of unequal length (or no rows at all) make the section fail with ShapeMismatch. */
  lemma RaggedRowsFail(lib: Lib, root: Element)
    requires Find(root, "Sequence").Some? && Find(Find(root, "Sequence").value, "Frame").Some?
    requires FrameTimeRows(lib, Find(root, "Sequence").value.children, "relativeTime").Ok?
    requires !Rectangular(FrameTimeRows(lib, Find(root, "Sequence").value.children, "relativeTime").value)
    ensures SequenceMetaOf(lib, root) == Err(ShapeMismatch)
  {
  }

  /** A child of the sequence without `Frame` children contributes an empty row. */
  lemma FramelessChildEmptyRow(lib: Lib, child: Element, key: string)
    requires forall c | c in child.children :: c.tag != "Frame"
    ensures CollectFrameTimes(lib, child, key) == Ok([])
  {
    if FindAll(child.children, "Frame") != [] {
      assert FindAll(child.children, "Frame")[0] in FindAll(child.children, "Frame");
    }
    assert FramesWith([], key) == [];
  }

  /**
   * The matrices come from the grandchildren: when the frames of the sequence
   * have no `Frame` children of their own (the usual layout) every row is empty,
   * one per child of the sequence.
   */
  lemma FramelessSequenceEmptyRows(lib: Lib, root: Element)
    requires SequenceMetaOf(lib, root).Ok?
    requires forall c, g | c in Find(root, "Sequence").value.children && g in c.children :: g.tag != "Frame"
    ensures forall i | 0 <= i < |SequenceMetaOf(lib, root).value.relativeFrameTimes| ::
      SequenceMetaOf(lib, root).value.relativeFrameTimes[i] == []
    ensures forall i | 0 <= i < |SequenceMetaOf(lib, root).value.absoluteFrameTimes| ::
      SequenceMetaOf(lib, root).value.absoluteFrameTimes[i] == []
  {
    var sequence := Find(root, "Sequence").value;
    SequenceMetaShape(lib, root);
    forall i | 0 <= i < |sequence.children|
      ensures CollectFrameTimes(lib, sequence.children[i], "relativeTime") == Ok([])
      ensures CollectFrameTimes(lib, sequence.children[i], "absoluteTime") == Ok([])
    {
      assert sequence.children[i] in sequence.children;
      FramelessChildEmptyRow(lib, sequence.children[i], "relativeTime");
      FramelessChildEmptyRow(lib, sequence.children[i], "absoluteTime");
    }
  }

  /** `get_num_planes_num_channels`: the number of frames and the `File` children of the first. */
  function NumPlanesNumChannels(root: Element): Result<(nat, nat), PVError> {
    match Find(root, "Sequence")
    case None => Err(MissingElement("Sequence"))
    case Some(sequence) =>
      var frames := FindAll(sequence.children, "Frame");
      if frames == [] then Err(NoFrames)
      else Ok((|frames|, |FindAll(frames[0].children, "File")|))
  }

  /**
   * Both readers agree on the channel count, and this one fails for want of
   * frames exactly when the sequence section fails for want of a first frame.
   */
  lemma ChannelCountsAgree(lib: Lib, root: Element)
    ensures Find(root, "Sequence").Some? ==>
      (NumPlanesNumChannels(root) == Err(NoFrames) <==> SequenceMetaOf(lib, root) == Err(MissingElement("Frame")))
    ensures NumPlanesNumChannels(root).Ok? && SequenceMetaOf(lib, root).Ok? ==>
      NumPlanesNumChannels(root).value.1 == SequenceMetaOf(lib, root).value.numChannels
  {
    if Find(root, "Sequence").Some? {
      var sequence := Find(root, "Sequence").value;
      var frames := FindAll(sequence.children, "Frame");
      assert Find(sequence, "Frame").None? <==> frames == [];
      assert frames != [] ==> Find(sequence, "Frame") == Some(frames[0]);
    }
  }

  // ---------------------------------------------------------------------------
  // Selector

  /** A validated `PrairieViewMeta`; the sequence section is always filled in. */
  datatype PrairieViewMeta = PrairieViewMeta(session: Session, systemId: SystemId, imagingMeta: Option<ImagingMeta>, sequenceMeta: SequenceMeta)

  /** What `load_metadata` returns. */
  datatype Loaded =
    | SessionOnly(session: Session)
    | SystemIdOnly(systemId: SystemId)
    | ImagingOnly(imaging: Option<ImagingMeta>)
    | SequenceOnly(sequence: SequenceMeta)
    | Everything(meta: PrairieViewMeta)

  /** `load_metadata` after parsing: one named section, or all four in order. */
  function LoadMetadata(lib: Lib, root: Element, component: Option<string>): Result<Loaded, PVError> {
    if component == Some("session") then
      match SessionMeta(root) case Err(e) => Err(e) case Ok(s) => Ok(SessionOnly(s))
    else if component == Some("system_id") then
      match SystemIdOf(root) case Err(e) => Err(e) case Ok(s) => Ok(SystemIdOnly(s))
    else if component == Some("imaging_meta") then
      match ImagingMetaOf(lib, root) case Err(e) => Err(e) case Ok(m) => Ok(ImagingOnly(m))
    else if component == Some("sequence_meta") then
      match SequenceMetaOf(lib, root) case Err(e) => Err(e) case Ok(m) => Ok(SequenceOnly(m))
    else
      match SessionMeta(root)
      case Err(e) => Err(e)
      case Ok(session) =>
        match SystemIdOf(root)
        case Err(e) => Err(e)
        case Ok(systemId) =>
          match ImagingMetaOf(lib, root)
          case Err(e) => Err(e)
          case Ok(imaging) =>
            match SequenceMetaOf(lib, root)
            case Err(e) => Err(e)
            case Ok(sequence) => Ok(Everything(PrairieViewMeta(session, systemId, imaging, sequence)))
  }

  predicate IsSectionName(component: Option<string>) {
    component == Some("session") || component == Some("system_id")
    || component == Some("imaging_meta") || component == Some("sequence_meta")
  }

  /**
   * Any other selector (including None) reads all four sections: the result
   * succeeds exactly when each section does, holds each section, and otherwise
   * fails with the error of the first failing section in the order session,
   * system identifier, imaging, sequence.
   */
  lemma LoadEverything(lib: Lib, root: Element, component: Option<string>)
    requires !IsSectionName(component)
    ensures LoadMetadata(lib, root, component).Ok? <==>
      SessionMeta(root).Ok? && SystemIdOf(root).Ok? && ImagingMetaOf(lib, root).Ok? && SequenceMetaOf(lib, root).Ok?
    ensures LoadMetadata(lib, root, component).Ok? ==>
      LoadMetadata(lib, root, component) == Ok(Everything(PrairieViewMeta(
        SessionMeta(root).value, SystemIdOf(root).value, ImagingMetaOf(lib, root).value, SequenceMetaOf(lib, root).value)))
    ensures SessionMeta(root).Err? ==> LoadMetadata(lib, root, component) == Err(SessionMeta(root).error)
    ensures SessionMeta(root).Ok? && SystemIdOf(root).Err? ==> LoadMetadata(lib, root, component) == Err(SystemIdOf(root).error)
    ensures SessionMeta(root).Ok? && SystemIdOf(root).Ok? && ImagingMetaOf(lib, root).Err? ==>
      LoadMetadata(lib, root, component) == Err(ImagingMetaOf(lib, root).error)
    ensures SessionMeta(root).Ok? && SystemIdOf(root).Ok? && ImagingMetaOf(lib, root).Ok? && SequenceMetaOf(lib, root).Err? ==>
      LoadMetadata(lib, root, component) == Err(SequenceMetaOf(lib, root).error)
  {
  }

  /**
   * A named selector reads that section alone and returns its own result: its
   * value, or its error; the other sections cannot make it fail.
   */
  lemma LoadOneSection(lib: Lib, root: Element, component: Option<string>)
    requires IsSectionName(component)
    ensures component == Some("session") ==>
      LoadMetadata(lib, root, component) ==
        match SessionMeta(root) case Ok(s) => Ok(SessionOnly(s)) case Err(e) => Err(e)
    ensures component == Some("system_id") ==>
      LoadMetadata(lib, root, component) ==
        match SystemIdOf(root) case Ok(s) => Ok(SystemIdOnly(s)) case Err(e) => Err(e)
    ensures component == Some("imaging_meta") ==>
      LoadMetadata(lib, root, component) ==
        match ImagingMetaOf(lib, root) case Ok(m) => Ok(ImagingOnly(m)) case Err(e) => Err(e)
    ensures component == Some("sequence_meta") ==>
      LoadMetadata(lib, root, component) ==
        match SequenceMetaOf(lib, root) case Ok(m) => Ok(SequenceOnly(m)) case Err(e) => Err(e)
    ensures LoadMetadata(lib, root, component).Ok? ==> !LoadMetadata(lib, root, component).value.Everything?
  {
  }
}
