/**
 * Error values and status strings shared by the OpenStack cloud provider
 * (pkg/cloudprovider/providers/openstack/openstack.go).
 */
module OpenStackCommon {

  /** The errors the provider returns. The first seven are the package's named error values. */
  datatype Error =
    | ErrNotFound
    | ErrMultipleResults
    | ErrNoAddressFound
    | ErrAttrNotFound
    | ErrLBTimedOut
    | ErrLBPendigCreateStatus
    | ErrLBErrorStatus
      /** A failure answered by an OpenStack API other than "404 Not Found". */
    | ApiError(call: string)
      /** "404 Not Found" answered by an OpenStack API (gophercloud's UnexpectedResponseCodeError). */
    | HttpNotFound(call: string)
      /** An error the provider builds itself with `fmt.Errorf` or `errors.New`. */
    | Failure(reason: string)
      /** The Go runtime panics: a nil pointer is dereferenced. */
    | NilDereference
      /**
       * Not a Go error: the answers given to the model for a polling loop ran out while the
       * loop would poll again.
       */
    | NoMoreAnswers

  /** `isNotFound`: whether an error is an API's "404 Not Found". */
  predicate IsNotFound(e: Error) {
    e.HttpNotFound?
  }

  /** The load-balancer status strings the provider compares against. */
  const PendingCreate: string := "PENDING_CREATE"
  const Active: string := "ACTIVE"
  const ErrorState: string := "ERROR"
  const PendingDelete: string := "PENDING_DELETE"

  /** What a create-or-reuse lookup does with an existing pool, member or VIP, by its status. */
  datatype Reuse = ReuseIt | Refuse(err: Error) | Ignore

  /**
   * The status switch shared by `createPool`, `createMember` and `createVip`: reuse an
   * ACTIVE object, refuse one that is PENDING_CREATE or in ERROR, and otherwise act as if it
   * were not there (the switch has no default case).
   */
  function StatusRule(status: string): (r: Reuse)
    ensures r == ReuseIt <==> status == Active
    ensures r == Refuse(ErrLBPendigCreateStatus) <==> status == PendingCreate
    ensures r == Refuse(ErrLBErrorStatus) <==> status == ErrorState
    ensures r == Ignore <==> status !in {Active, PendingCreate, ErrorState}
  {
    if status == Active then ReuseIt
    else if status == PendingCreate then Refuse(ErrLBPendigCreateStatus)
    else if status == ErrorState then Refuse(ErrLBErrorStatus)
    else Ignore
  }
}
