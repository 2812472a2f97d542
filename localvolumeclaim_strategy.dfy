/**
 * The registry strategy for local volume claims (pkg/registry/localvolumeclaim/strategy.go):
 * what create and update do to a claim before it is stored, its validation and policy flags,
 * and the fields a claim can be selected by. Label and field selectors, and the fields every
 * object's metadata contributes, are inputs.
 */
module LocalVolumeClaimStrategy {
  import opened Wrappers

  datatype ObjectMeta = ObjectMeta(name: string, namespace: string, labels: map<string, string>)

  datatype ClaimSpec = ClaimSpec(volumeName: string, size: int)

  datatype ClaimStatus = ClaimStatus(phase: string)

  /** The zero status, `LocalVolumeClaimStatus{}`. */
  const EmptyStatus := ClaimStatus("")

  /** A local volume claim, updated in place by the strategies. */
  class LocalVolumeClaim {
    var meta: ObjectMeta
    var spec: ClaimSpec
    var status: ClaimStatus

    constructor (meta: ObjectMeta, spec: ClaimSpec, status: ClaimStatus)
      ensures this.meta == meta && this.spec == spec && this.status == status
    {
      this.meta := meta;
      this.spec := spec;
      this.status := status;
    }
  }

  /** An object handed to the strategy: a claim, or an object of another kind. */
  datatype Object = ClaimObject(claim: LocalVolumeClaim) | OtherObject(kind: string)

  /** What a strategy hook does to its object. A failed type assertion is a Go panic. */
  datatype Outcome = Prepared | Panicked

  /** The claim an object holds, if it holds one. */
  function Footprint(obj: Object): set<LocalVolumeClaim> {
    if obj.ClaimObject? then {obj.claim} else {}
  }

  // ---------------------------------------------------------------------------
  // localvolumeclaimStrategy
  // ---------------------------------------------------------------------------

  /** Claims belong to a namespace. */
  function NamespaceScoped(): (r: bool)
    ensures r
  {
    true
  }

  /** An update never creates a missing claim. */
  function AllowCreateOnUpdate(): (r: bool)
    ensures !r
  {
    false
  }

  /** An update without a resource version is accepted. */
  function AllowUnconditionalUpdate(): (r: bool)
    ensures r
  {
    true
  }

  /** `PrepareForCreate`: users may not set the status on creation; it is reset to zero. */
  method PrepareForCreate(obj: Object) returns (outcome: Outcome)
    modifies Footprint(obj)
    ensures outcome == Panicked <==> obj.OtherObject?
    ensures obj.ClaimObject? ==>
              obj.claim.status == EmptyStatus
              && obj.claim.spec == old(obj.claim.spec) && obj.claim.meta == old(obj.claim.meta)
  {
    if obj.OtherObject? {
      return Panicked;
    }
    obj.claim.status := EmptyStatus;
    return Prepared;
  }

  /** Validation is switched off: every claim is valid. */
  function Validate(obj: Object): (errors: seq<string>)
    ensures errors == []
  {
    []
  }

  /**
   * `PrepareForUpdate`: an update through the main endpoint may change the spec but not the
   * status, which is taken from the stored claim.
   */
  method PrepareForUpdate(obj: Object, oldObj: Object) returns (outcome: Outcome)
    modifies Footprint(obj)
    ensures outcome == Panicked <==> obj.OtherObject? || oldObj.OtherObject?
    ensures outcome == Prepared ==>
              obj.claim.status == old(oldObj.claim.status)
              && obj.claim.spec == old(obj.claim.spec) && obj.claim.meta == old(obj.claim.meta)
    ensures outcome == Panicked ==> obj.OtherObject? || obj.claim.status == old(obj.claim.status)
  {
    if obj.OtherObject? || oldObj.OtherObject? {
      return Panicked;
    }
    obj.claim.status := oldObj.claim.status;
    return Prepared;
  }

  function ValidateUpdate(obj: Object, oldObj: Object): (errors: seq<string>)
    ensures errors == []
  {
    []
  }

  // ---------------------------------------------------------------------------
  // localvolumeclaimStatusStrategy
  // ---------------------------------------------------------------------------

  /**
   * The status endpoint's `PrepareForUpdate`: it may change the status but not the spec,
   * which is taken from the stored claim.
   */
  method PrepareForStatusUpdate(obj: Object, oldObj: Object) returns (outcome: Outcome)
    modifies Footprint(obj)
    ensures outcome == Panicked <==> obj.OtherObject? || oldObj.OtherObject?
    ensures outcome == Prepared ==>
              obj.claim.spec == old(oldObj.claim.spec)
              && obj.claim.status == old(obj.claim.status) && obj.claim.meta == old(obj.claim.meta)
    ensures outcome == Panicked ==> obj.OtherObject? || obj.claim.spec == old(obj.claim.spec)
  {
    if obj.OtherObject? || oldObj.OtherObject? {
      return Panicked;
    }
    obj.claim.spec := oldObj.claim.spec;
    return Prepared;
  }

  function ValidateStatusUpdate(obj: Object, oldObj: Object): (errors: seq<string>)
    ensures errors == []
  {
    []
  }

  // ---------------------------------------------------------------------------
  // Selection
  // ---------------------------------------------------------------------------

  /**
   * `LocalVolumeClaimToSelectableFields`: the fields of the object's metadata (`metaFields`),
   * with "name" set to the claim's name on top.
   */
  function SelectableFields(meta: ObjectMeta, metaFields: map<string, string>): (fields: map<string, string>)
    ensures "name" in fields && fields["name"] == meta.name
    ensures fields.Keys == metaFields.Keys + {"name"}
    ensures forall key :: key in metaFields && key != "name" ==> fields[key] == metaFields[key]
  {
    metaFields["name" := meta.name]
  }

  /**
   * `MatchLocalVolumeClaim`: a claim matches when its labels satisfy the label selector and
   * its selectable fields the field selector; any other object is an error.
   */
  function Match(labelSelector: map<string, string> -> bool, fieldSelector: map<string, string> -> bool,
                 metaFields: ObjectMeta -> map<string, string>, obj: Object): (r: Result<bool, string>)
    reads Footprint(obj)
    ensures obj.OtherObject? ==> r == Err("not a localvolumeclaim")
    ensures obj.ClaimObject? ==>
              r.Ok? && (r.value <==> labelSelector(obj.claim.meta.labels)
                                     && fieldSelector(SelectableFields(obj.claim.meta, metaFields(obj.claim.meta))))
  {
    if obj.OtherObject? then Err("not a localvolumeclaim")
    else
      var meta := obj.claim.meta;
      Ok(labelSelector(meta.labels) && fieldSelector(SelectableFields(meta, metaFields(meta))))
  }
}
