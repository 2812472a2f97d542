/**
 * Cinder volume lookup and the Nova attach/detach decisions of the OpenStack cloud provider
 * (`getVolume`, `AttachDisk`, `DetachDisk` in openstack.go). The volume listing is an input;
 * Nova's answers to an attach or detach request are inputs, and the requests issued are
 * returned so that the decisions can be stated.
 */
module OpenStackVolumes {
  import opened Wrappers
  import opened GoText
  import opened OpenStackCommon

  /** The "server_id" of an attachment: absent or nil, a string, or some other JSON value. */
  datatype ServerRef = NoServer | ServerString(id: string) | ServerOther

  datatype Volume = Volume(id: string, name: string, attachments: seq<ServerRef>)

  /** The zero `volumes.Volume` Go returns when nothing was listed. */
  const ZeroVolume := Volume("", "", [])

  datatype VolumePage = VolumePage(volumes: seq<Volume>) | MalformedVolumePage

  /** A volume answers to a disk name by its full name or by any part of its id. */
  predicate Answers(v: Volume, diskName: string) {
    v.name == diskName || Contains(v.id, diskName)
  }

  /** The index of the first volume answering to the name, or `|vols|`. */
  function FirstAnswering(vols: seq<Volume>, diskName: string): (i: nat)
    ensures i <= |vols|
    ensures i < |vols| ==> Answers(vols[i], diskName)
    ensures forall k :: 0 <= k < i ==> !Answers(vols[k], diskName)
  {
    if vols == [] then 0
    else if Answers(vols[0], diskName) then 0
    else 1 + FirstAnswering(vols[1..], diskName)
  }

  /**
   * `getVolume`: every page must hold a volume answering to the name (its first one is
   * kept); a page without one ends the listing with an error, and the last page's volume
   * wins. No pages at all give the zero volume and no error.
   */
  function GetVolume(pages: seq<VolumePage>, diskName: string, found: Volume): (r: Result<Volume, Error>)
    decreases |pages|
  {
    if pages == [] then Ok(found)
    else match pages[0]
      case MalformedVolumePage => Err(ApiError("volumes.ExtractVolumes"))
      case VolumePage(vols) =>
        var i := FirstAnswering(vols, diskName);
        if i < |vols| then GetVolume(pages[1..], diskName, vols[i])
        else Err(Failure("unable to find disk"))
  }

  /** A volume found in a non-empty listing answers to the name. */
  lemma {:induction false} GetVolumeAnswers(pages: seq<VolumePage>, diskName: string, found: Volume)
    requires Answers(found, diskName) || found == ZeroVolume
    ensures GetVolume(pages, diskName, found).Ok? ==>
      (pages == [] && GetVolume(pages, diskName, found).value == found) || Answers(GetVolume(pages, diskName, found).value, diskName)
    decreases |pages|
  {
    if pages != [] && pages[0].VolumePage? {
      var i := FirstAnswering(pages[0].volumes, diskName);
      if i < |pages[0].volumes| {
        GetVolumeAnswers(pages[1..], diskName, pages[0].volumes[i]);
      }
    }
  }

  /** Whether a page decodes and holds a volume answering to the name. */
  predicate PageAnswers(page: VolumePage, diskName: string) {
    page.VolumePage? && FirstAnswering(page.volumes, diskName) < |page.volumes|
  }

  /** The volume a page contributes: its first volume answering to the name. */
  function PageVolume(page: VolumePage, diskName: string): (v: Volume)
    requires PageAnswers(page, diskName)
    ensures v in page.volumes && Answers(v, diskName)
  {
    page.volumes[FirstAnswering(page.volumes, diskName)]
  }

  /**
   * The lookup succeeds exactly when every page decodes and holds an answering volume, and
   * then yields the last page's first answering volume (or `found` when nothing was listed).
   * Otherwise the first page that fails decides the error: ApiError when it does not decode,
   * "unable to find disk" when it holds no answering volume.
   */
  lemma {:induction false} GetVolumeSpec(pages: seq<VolumePage>, diskName: string, found: Volume)
    ensures GetVolume(pages, diskName, found).Ok? <==> forall k :: 0 <= k < |pages| ==> PageAnswers(pages[k], diskName)
    ensures GetVolume(pages, diskName, found).Ok? ==>
      GetVolume(pages, diskName, found).value == if pages == [] then found else PageVolume(pages[|pages| - 1], diskName)
    ensures forall j :: 0 <= j < |pages| && (forall k :: 0 <= k < j ==> PageAnswers(pages[k], diskName)) && !PageAnswers(pages[j], diskName) ==>
      GetVolume(pages, diskName, found)
        == Err(if pages[j].MalformedVolumePage? then ApiError("volumes.ExtractVolumes") else Failure("unable to find disk"))
    decreases |pages|
  {
    if pages != [] && PageAnswers(pages[0], diskName) {
      var v := PageVolume(pages[0], diskName);
      GetVolumeSpec(pages[1..], diskName, v);
      assert GetVolume(pages, diskName, found) == GetVolume(pages[1..], diskName, v);
      if forall k :: 0 <= k < |pages[1..]| ==> PageAnswers(pages[1..][k], diskName) {
        forall k | 0 <= k < |pages| ensures PageAnswers(pages[k], diskName) {
          if k > 0 { assert pages[k] == pages[1..][k - 1]; }
        }
      }
      if forall k :: 0 <= k < |pages| ==> PageAnswers(pages[k], diskName) {
        forall k | 0 <= k < |pages[1..]| ensures PageAnswers(pages[1..][k], diskName) {
          assert pages[1..][k] == pages[k + 1];
        }
      }
      if |pages| > 1 {
        assert pages[1..][|pages[1..]| - 1] == pages[|pages| - 1];
      }
      forall j | 0 <= j < |pages| && (forall k :: 0 <= k < j ==> PageAnswers(pages[k], diskName)) && !PageAnswers(pages[j], diskName)
        ensures GetVolume(pages, diskName, found)
          == Err(if pages[j].MalformedVolumePage? then ApiError("volumes.ExtractVolumes") else Failure("unable to find disk"))
      {
        assert j > 0 && pages[1..][j - 1] == pages[j];
        forall k | 0 <= k < j - 1 ensures PageAnswers(pages[1..][k], diskName) {
          assert pages[1..][k] == pages[k + 1];
        }
      }
    } else if pages != [] {
      assert !PageAnswers(pages[0], diskName);
    }
  }

  /** The first page alone decides failure: without an answering volume there, later pages are never read. */
  lemma FirstPageWithoutMatch(vols: seq<Volume>, rest: seq<VolumePage>, diskName: string)
    requires forall k :: 0 <= k < |vols| ==> !Answers(vols[k], diskName)
    ensures GetVolume([VolumePage(vols)] + rest, diskName, ZeroVolume).Err?
  {
    assert ([VolumePage(vols)] + rest)[0] == VolumePage(vols);
  }

  /**
   * An illustration of the last-page rule `GetVolumeSpec` states in general: of two pages
   * that both hold an answering volume, the second page's wins.
   */
  lemma LastPageWins(a: Volume, b: Volume, diskName: string)
    requires Answers(a, diskName) && Answers(b, diskName)
    ensures GetVolume([VolumePage([a]), VolumePage([b])], diskName, ZeroVolume) == Ok(b)
  {
    var pages := [VolumePage([a]), VolumePage([b])];
    assert FirstAnswering([a], diskName) == 0;
    assert FirstAnswering([b], diskName) == 0;
    assert pages[1..] == [VolumePage([b])];
    assert pages[1..][1..] == [];
    assert GetVolume(pages[1..], diskName, a) == GetVolume([], diskName, b);
    assert GetVolume(pages, diskName, ZeroVolume) == GetVolume(pages[1..], diskName, a);
  }

  // ---------------------------------------------------------------------------
  // AttachDisk / DetachDisk
  // ---------------------------------------------------------------------------

  /** A request sent to Nova's volume-attachment API. */
  datatype NovaCall = AttachCall(server: string, volume: string) | DetachCall(server: string, volume: string)

  /** What Nova answers: whether an attach request fails and whether a detach request fails. */
  datatype Nova = Nova(attachFails: bool, detachFails: bool)

  /** The first attachment's server, when there is one and it is not nil. */
  function FirstServer(v: Volume): ServerRef {
    if |v.attachments| > 0 then v.attachments[0] else NoServer
  }

  /** Go's `computeUUID == attachment["server_id"]`: only a string server id can be equal. */
  predicate AttachedTo(v: Volume, compute: string) {
    FirstServer(v) == ServerString(compute)
  }

  /**
   * `DetachDisk`: find the volume, and ask Nova to detach it only when its first
   * attachment is the given compute.
   */
  function DetachDisk(pages: seq<VolumePage>, partialDiskId: string, compute: string, nova: Nova): (r: (Option<Error>, seq<NovaCall>))
    ensures r.0.None? ==> exists v :: GetVolume(pages, partialDiskId, ZeroVolume) == Ok(v) && AttachedTo(v, compute)
    ensures |r.1| <= 1
    ensures forall c :: c in r.1 ==> c.DetachCall? && c.server == compute
  {
    match GetVolume(pages, partialDiskId, ZeroVolume)
    case Err(e) => (Some(e), [])
    case Ok(disk) =>
      if AttachedTo(disk, compute) then
        var call := DetachCall(compute, disk.id);
        if nova.detachFails then (Some(ApiError("volumeattach.Delete")), [call]) else (None, [call])
      else (Some(Failure("disk has no attachments or is not attached to compute")), [])
  }

  /**
   * `AttachDisk`: a disk already attached to the compute is returned without a request; a
   * disk attached elsewhere is first detached when it may be (when its server id is a
   * string) and refused when it may not; then the attach is requested.
   */
  function AttachDisk(pages: seq<VolumePage>, diskName: string, detachable: bool, compute: string, nova: Nova): (r: (Result<string, Error>, seq<NovaCall>))
  {
    match GetVolume(pages, diskName, ZeroVolume)
    case Err(e) => (Err(e), [])
    case Ok(disk) =>
      var attached := FirstServer(disk);
      if attached != NoServer && attached == ServerString(compute) then (Ok(disk.id), [])
      else if attached != NoServer && !detachable then
        (Err(Failure("disk is attached to a different compute")), [])
      else
        var (detachErr, detachCalls) :=
          if attached.ServerString? then DetachDisk(pages, disk.id, attached.id, nova) else (None, []);
        if detachErr.Some? then (Err(detachErr.value), detachCalls)
        else
          var calls := detachCalls + [AttachCall(compute, disk.id)];
          if nova.attachFails then (Err(ApiError("volumeattach.Create")), calls) else (Ok(disk.id), calls)
  }

  /** A disk already attached to the compute is returned as is and Nova is not asked anything. */
  lemma AttachAlreadyAttached(pages: seq<VolumePage>, diskName: string, detachable: bool, compute: string, nova: Nova, disk: Volume)
    requires GetVolume(pages, diskName, ZeroVolume) == Ok(disk) && AttachedTo(disk, compute)
    ensures AttachDisk(pages, diskName, detachable, compute, nova) == (Ok(disk.id), [])
  {
  }

  /** A disk attached to another compute is refused, without a request, when it is not detachable. */
  lemma AttachElsewhereNotDetachable(pages: seq<VolumePage>, diskName: string, compute: string, nova: Nova, disk: Volume)
    requires GetVolume(pages, diskName, ZeroVolume) == Ok(disk)
    requires FirstServer(disk) != NoServer && !AttachedTo(disk, compute)
    ensures AttachDisk(pages, diskName, false, compute, nova).0.Err?
    ensures AttachDisk(pages, diskName, false, compute, nova).1 == []
  {
  }

  /**
   * Whenever `AttachDisk` succeeds, the returned id is the disk's, and the last request
   * sent (if any) attaches that disk to the compute; any request before it detaches the disk
   * from another compute.
   */
  lemma AttachDiskRequests(pages: seq<VolumePage>, diskName: string, detachable: bool, compute: string, nova: Nova)
    ensures var (r, calls) := AttachDisk(pages, diskName, detachable, compute, nova);
      r.Ok? ==>
        && (exists disk :: GetVolume(pages, diskName, ZeroVolume) == Ok(disk) && r.value == disk.id)
        && (calls == [] || calls[|calls| - 1] == AttachCall(compute, r.value))
        && (forall k :: 0 <= k < |calls| - 1 ==> calls[k].DetachCall? && calls[k].server != compute)
  {
    var (r, calls) := AttachDisk(pages, diskName, detachable, compute, nova);
    if r.Ok? {
      var disk := GetVolume(pages, diskName, ZeroVolume).value;
      var attached := FirstServer(disk);
      if attached.ServerString? && attached.id != compute {
        var d := DetachDisk(pages, disk.id, attached.id, nova);
        assert forall c :: c in d.1 ==> c.DetachCall? && c.server == attached.id;
        if calls != [] {
          forall k | 0 <= k < |calls| - 1 ensures calls[k].DetachCall? && calls[k].server != compute {
            assert calls[k] == d.1[k];
            assert calls[k] in d.1;
          }
        }
      }
    }
  }

  /** `DetachDisk` issues a request exactly when the disk's first attachment is the compute. */
  lemma DetachDiskRequestsIff(pages: seq<VolumePage>, partialDiskId: string, compute: string, nova: Nova)
    ensures DetachDisk(pages, partialDiskId, compute, nova).1 != [] <==>
      exists v :: GetVolume(pages, partialDiskId, ZeroVolume) == Ok(v) && AttachedTo(v, compute)
  {
  }
}
