/**
 * The plane metadata of a multi-plane acquisition (records/prairieview.py,
 * `load_plane_metadata`): the nested MATLAB arrays that `loadmat` produces, and
 * the fixed-depth indexing that turns them into one dictionary per plane.
 */
module PrairieViewPlanes {
  import opened Wrappers
  import opened PrairieViewNames

  /** A value read from a MAT file: an array of values, or a number. */
  datatype MatValue = Cell(items: seq<MatValue>) | Scalar(number: real)

  /** `value[i]`: an element of an array; indexing a number or past the end fails. */
  function Index(value: MatValue, i: nat): (r: Option<MatValue>)
    ensures r.Some? <==> value.Cell? && i < |value.items|
  {
    if value.Cell? && i < |value.items| then Some(value.items[i]) else None
  }

  /** `value[p0][p1]...`: indexing along a path, failing at the first step that fails. */
  function At(value: MatValue, path: seq<nat>): Option<MatValue>
    decreases |path|
  {
    if path == [] then Some(value)
    else match Index(value, path[0])
      case None => None
      case Some(inner) => At(inner, path[1..])
  }

  /** The names of a plane's fields, in the order they are read. */
  const PlaneFieldNames: seq<string> := ["idx", "pattern", "x", "y", "z", "i_targ", "i_est", "w_est"]

  /** Where the k-th field of a plane sits: `plane[0][0][0][k][0][0]`. */
  function FieldPath(k: nat): seq<nat> {
    [0, 0, 0, k, 0, 0]
  }

  /** The fields of one plane read so far, or the first that is missing. */
  function PlaneFieldsUpTo(plane: MatValue, n: nat): (r: Option<map<string, MatValue>>)
    requires n <= |PlaneFieldNames|
    ensures r.Some? ==> r.value.Keys == set k | 0 <= k < n :: PlaneFieldNames[k]
    ensures r.Some? <==> forall k | 0 <= k < n :: At(plane, FieldPath(k)).Some?
    ensures r.Some? ==> forall k | 0 <= k < n :: r.value[PlaneFieldNames[k]] == At(plane, FieldPath(k)).value
  {
    if n == 0 then Some(map[])
    else
      match PlaneFieldsUpTo(plane, n - 1)
      case None => None
      case Some(fields) =>
        match At(plane, FieldPath(n - 1))
        case None => None
        case Some(v) =>
          PlaneNamesDistinct();
          Some(fields[PlaneFieldNames[n - 1] := v])
  }

  /** The dictionary literal of one plane: its eight fields, or None when the plane lacks one. */
  function PlaneFields(plane: MatValue): Option<map<string, MatValue>> {
    PlaneFieldsUpTo(plane, |PlaneFieldNames|)
  }

  lemma PlaneNamesDistinct()
    ensures forall i, j | 0 <= i < j < |PlaneFieldNames| :: PlaneFieldNames[i] != PlaneFieldNames[j]
  {
  }

  /** The planes container, `planes[0][0]`. */
  function Container(planes: MatValue): Option<MatValue> {
    At(planes, [0, 0])
  }

  /** The planes `0..n` as a dictionary, or the first plane that lacks a field. */
  function PlanesUpTo(container: MatValue, n: nat): (r: Result<map<nat, map<string, MatValue>>, PVError>)
    requires container.Cell? && n <= |container.items|
    ensures r.Ok? ==> forall p: nat :: p in r.value <==> p < n
    ensures r.Ok? <==> forall p | 0 <= p < n :: PlaneFields(container.items[p]).Some?
    ensures r.Ok? ==> forall p | 0 <= p < n :: r.value[p] == PlaneFields(container.items[p]).value
    ensures r.Err? ==> exists p | 0 <= p < n ::
      && r.error == UnexpectedLayout(Some(p))
      && PlaneFields(container.items[p]).None?
      && forall q | 0 <= q < p :: PlaneFields(container.items[q]).Some?
  {
    if n == 0 then Ok(map[])
    else
      match PlanesUpTo(container, n - 1)
      case Err(e) => Err(e)
      case Ok(done) =>
        match PlaneFields(container.items[n - 1])
        case None => Err(UnexpectedLayout(Some(n - 1)))
        case Some(fields) => Ok(done[n - 1 := fields])
  }

  /** `load_plane_metadata` after `loadmat`: plane number to its fields. */
  function PlaneMetadataOf(planes: MatValue): Result<map<nat, map<string, MatValue>>, PVError> {
    match Container(planes)
    case None => Err(UnexpectedLayout(None))
    case Some(container) =>
      if container.Scalar? then Err(UnexpectedLayout(None))
      else PlanesUpTo(container, |container.items|)
  }

  /** `load_plane_metadata`: the planes container is found, then read plane by plane. */
  method LoadPlaneMetadata(planes: MatValue) returns (r: Result<map<nat, map<string, MatValue>>, PVError>)
    ensures r == PlaneMetadataOf(planes)
  {
    var container := Container(planes);
    if container.None? || container.value.Scalar? {
      return Err(UnexpectedLayout(None));
    }
    r := LoadPlanes(container.value);
  }

  /** The loop over the planes of the container: the dictionary is filled plane by plane. */
  method LoadPlanes(container: MatValue) returns (r: Result<map<nat, map<string, MatValue>>, PVError>)
    requires container.Cell?
    ensures r == PlanesUpTo(container, |container.items|)
  {
    var planeMetadata: map<nat, map<string, MatValue>> := map[];
    for p := 0 to |container.items|
      invariant PlanesUpTo(container, p) == Ok(planeMetadata)
    {
      var fields := PlaneFields(container.items[p]);
      PlanesStep(container, p, planeMetadata);
      if fields.None? {
        PlanesFailAfter(container, p + 1);
        return Err(UnexpectedLayout(Some(p)));
      }
      planeMetadata := planeMetadata[p := fields.value];
    }
    r := Ok(planeMetadata);
  }

  /** One more plane: its fields are added, or it is the plane that fails. */
  lemma PlanesStep(container: MatValue, p: nat, done: map<nat, map<string, MatValue>>)
    requires container.Cell? && p < |container.items| && PlanesUpTo(container, p) == Ok(done)
    ensures PlaneFields(container.items[p]).None? ==> PlanesUpTo(container, p + 1) == Err(UnexpectedLayout(Some(p)))
    ensures PlaneFields(container.items[p]).Some? ==>
      PlanesUpTo(container, p + 1) == Ok(done[p := PlaneFields(container.items[p]).value])
  {
  }

  /** Once the planes up to some point fail, all of them fail with the same plane. */
  lemma {:induction false} PlanesFailAfter(container: MatValue, n: nat)
    requires container.Cell? && n <= |container.items| && PlanesUpTo(container, n).Err?
    ensures PlanesUpTo(container, |container.items|) == PlanesUpTo(container, n)
    decreases |container.items| - n
  {
    if n < |container.items| {
      assert PlanesUpTo(container, n + 1).error == PlanesUpTo(container, n).error;
      PlanesFailAfter(container, n + 1);
    }
  }

  /**
   * What the dictionary holds: keys `0` to the number of planes, and for each
   * plane the eight values at `plane[0][0][0][k][0][0]`, under their names in
   * order; a missing container fails without a plane, a plane lacking a field
   * fails with the first such plane.
   */
  lemma PlaneMetadataMeaning(planes: MatValue)
    ensures Container(planes).None? || Container(planes).value.Scalar? ==>
      PlaneMetadataOf(planes) == Err(UnexpectedLayout(None))
    ensures PlaneMetadataOf(planes).Ok? ==>
      var container := Container(planes).value;
      && (forall p: nat :: p in PlaneMetadataOf(planes).value <==> p < |container.items|)
      && forall p, k | 0 <= p < |container.items| && 0 <= k < |PlaneFieldNames| ::
        && At(container.items[p], FieldPath(k)).Some?
        && PlaneMetadataOf(planes).value[p][PlaneFieldNames[k]] == At(container.items[p], FieldPath(k)).value
    ensures PlaneMetadataOf(planes).Err? && PlaneMetadataOf(planes).error != UnexpectedLayout(None) ==>
      var container := Container(planes).value;
      exists p, k | 0 <= p < |container.items| && 0 <= k < |PlaneFieldNames| ::
        && PlaneMetadataOf(planes).error == UnexpectedLayout(Some(p))
        && At(container.items[p], FieldPath(k)).None?
  {
    if PlaneMetadataOf(planes).Ok? {
      var container := Container(planes).value;
      forall p, k | 0 <= p < |container.items| && 0 <= k < |PlaneFieldNames|
        ensures At(container.items[p], FieldPath(k)).Some?
        ensures PlaneMetadataOf(planes).value[p][PlaneFieldNames[k]] == At(container.items[p], FieldPath(k)).value
      {
        assert PlaneFields(container.items[p]).Some?;
      }
    }
  }
}
