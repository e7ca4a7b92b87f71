/**
  The device service: validates its inputs, derives limit/offset from a page
  request, calls the repository, converts records, and maps every outcome to
  one code of a closed set. Identity validity is the input `validUuid`; new
  identities, the clock and storage failures are inputs as well.
 */
module DeviceService {
  import opened Common
  import DeviceModel
  import Store
  import DeviceRepo

  /** The outcome codes the service reports. */
  datatype ErrorCode =
    | Success
    | SuccessButNotFound
    | BadRequest
    | ParseUUIDFail
    | DeviceDBFindFail
    | DeviceDBCreateFail
    | DeviceDBUpdateFail
    | DeviceDBDeleteFail

  /** The service-level device: the identity is a plain string. */
  datatype Device = Device(
    id: string,
    model: string,
    color: string,
    version: string,
    createTime: Int64,
    updateTime: Int64)

  /** A page request: a 1-based page index and the page size. */
  datatype PageRequest = PageRequest(page: int, number: int)

  /** The repository record of a service device: identity and text fields, both timestamps zero. */
  function RepoType(d: Device): DeviceModel.Device
  {
    DeviceModel.Device(DeviceModel.UUID(d.id), d.model, d.color, d.version, 0, 0)
  }

  /** The service device of a repository record, every field copied. */
  function Assemble(r: DeviceModel.Device): Device
  {
    Device(r.id.String(), r.model, r.color, r.version, r.createTime, r.updateTime)
  }

  /** Converting to a record and back keeps identity and text fields and zeroes both timestamps. */
  lemma AssembleRepoType(d: Device)
    ensures Assemble(RepoType(d)) == d.(createTime := 0, updateTime := 0)
  {
  }

  /** Converting a record to a service device and back loses only its timestamps. */
  lemma RepoTypeAssemble(r: DeviceModel.Device)
    ensures RepoType(Assemble(r)) == r.(createTime := 0, updateTime := 0)
  {
  }

  /** Limit and offset of a page request; no request gives limit 0 and offset 0. */
  function Bounds(page: Option<PageRequest>): Store.Page
  {
    match page
    case None => Store.Page(0, 0)
    case Some(p) => Store.Page(p.number, p.number * (p.page - 1))
  }

  // ---------------------------------------------------------------- Find

  datatype FindOutcome = FindOutcome(devices: Option<seq<Device>>, code: ErrorCode)

  /**
    Lists the devices matching the filter's identity and text fields, one
    page at a time. No filter is a bad request; a storage failure is a find
    failure; an empty page is "found nothing" with no devices.
   */
  function Find(rows: seq<DeviceModel.Device>, d: Option<Device>, page: Option<PageRequest>, fault: bool): (o: FindOutcome)
    ensures d.None? ==> o == FindOutcome(None, BadRequest)
    ensures d.Some? && fault ==> o == FindOutcome(None, DeviceDBFindFail)
    ensures d.Some? && !fault ==>
              var found := DeviceRepo.Find(rows, RepoType(d.value), Bounds(page), false).value;
              && (found == [] <==> o == FindOutcome(None, SuccessButNotFound))
              && (found != [] ==>
                    && o.code == Success && o.devices.Some?
                    && |o.devices.value| == |found|
                    && forall i :: 0 <= i < |found| ==> o.devices.value[i] == Assemble(found[i]))
  {
    match d
    case None => FindOutcome(None, BadRequest)
    case Some(filter) =>
      match DeviceRepo.Find(rows, RepoType(filter), Bounds(page), fault)
      case Err(_) => FindOutcome(None, DeviceDBFindFail)
      case Ok(found) =>
        if |found| == 0 then FindOutcome(None, SuccessButNotFound)
        else FindOutcome(Some(seq(|found|, i requires 0 <= i < |found| => Assemble(found[i]))), Success)
  }

  /**
    `o` is the page of `limit` devices that starts at position `first` of
    `matches`: "found nothing" exactly when `first` is at or past the end,
    and otherwise a success holding the converted matches from `first` on,
    in order, as many as the limit allows and the matches supply.
   */
  ghost predicate IsPage(o: FindOutcome, matches: seq<DeviceModel.Device>, limit: int, first: int)
    requires first >= 0
  {
    && (o.code == SuccessButNotFound <==> first >= |matches|)
    && (first < |matches| ==> o.code == Success)
    && (o.code == Success ==>
          && o.devices.Some?
          && |o.devices.value| == Store.Min(limit, |matches| - first)
          && forall i :: 0 <= i < |o.devices.value| ==>
               first + i < |matches| && o.devices.value[i] == Assemble(matches[first + i]))
  }

  /** With offset `first >= 0` and limit `limit >= 1`, Find answers that page of the matches. */
  lemma FindWindow(rows: seq<DeviceModel.Device>, filter: Device, page: Option<PageRequest>, limit: int, first: int)
    requires Bounds(page) == Store.Page(limit, first) && limit >= 1 && first >= 0
    ensures IsPage(Find(rows, Some(filter), page, false), DeviceRepo.List(rows, RepoType(filter), false).value, limit, first)
  {
  }

  /**
    Page `k` of size `n` holds the matches at positions `n*(k-1)` up to
    `n*k`, in stored order, and is "found nothing" exactly when it starts at
    or past the last match.
   */
  lemma FindPage(rows: seq<DeviceModel.Device>, filter: Device, k: int, n: int)
    requires k >= 1 && n >= 1
    ensures n * (k - 1) >= 0
    ensures IsPage(Find(rows, Some(filter), Some(PageRequest(k, n)), false),
                   DeviceRepo.List(rows, RepoType(filter), false).value, n, n * (k - 1))
  {
    var first := n * (k - 1);
    assert first >= 0 by {
      assert k - 1 >= 0;
    }
    FindWindow(rows, filter, Some(PageRequest(k, n)), n, first);
  }

  /**
    A request with page 0 asks for a negative offset, which adds no clause:
    it answers the same first page as page 1.
   */
  lemma FindPageZero(rows: seq<DeviceModel.Device>, filter: Device, n: int)
    requires n >= 0
    ensures Find(rows, Some(filter), Some(PageRequest(0, n)), false)
         == Find(rows, Some(filter), Some(PageRequest(1, n)), false)
  {
    assert Bounds(Some(PageRequest(0, n))) == Store.Page(n, -n);
    assert Bounds(Some(PageRequest(1, n))) == Store.Page(n, 0);
    var matches := Store.Select(rows, DeviceRepo.Matching(RepoType(filter)));
    assert Store.Window(matches, n, -n) == Store.Window(matches, n, 0);
  }

  /** Without a page request the limit is 0, so the service finds nothing whatever is stored. */
  lemma FindWithoutPage(rows: seq<DeviceModel.Device>, filter: Device)
    ensures Find(rows, Some(filter), None, false) == FindOutcome(None, SuccessButNotFound)
  {
  }

  // ---------------------------------------------------------------- Register

  datatype RegisterOutcome = RegisterOutcome(device: Option<Device>, code: ErrorCode, rows: seq<DeviceModel.Device>)

  /**
    Registers a device under the fresh identity `freshId`. The record handed
    to the repository carries the input's text fields; the service's own
    timestamp assignments do not reach it, so the stored and returned
    modification time is 0.
   */
  function Register(rows: seq<DeviceModel.Device>, d: Option<Device>, freshId: string, now: Int64, fault: bool): (o: RegisterOutcome)
    ensures d.None? ==> o == RegisterOutcome(None, BadRequest, rows)
    ensures d.Some? && (fault || exists x :: x in rows && x.id == DeviceModel.UUID(freshId)) ==>
              o == RegisterOutcome(None, DeviceDBCreateFail, rows)
    ensures d.Some? && !fault && (forall x :: x in rows ==> x.id != DeviceModel.UUID(freshId)) ==>
              var stored := DeviceModel.Device(DeviceModel.UUID(freshId), d.value.model, d.value.color, d.value.version, now, 0);
              o == RegisterOutcome(Some(Assemble(stored)), Success, rows + [stored])
  {
    match d
    case None => RegisterOutcome(None, BadRequest, rows)
    case Some(input) =>
      var submitted := input.(id := freshId, createTime := now, updateTime := now);
      var c := DeviceRepo.Create(rows, RepoType(submitted), now, fault);
      match c.result
      case Err(_) => RegisterOutcome(None, DeviceDBCreateFail, rows)
      case Ok(x) => RegisterOutcome(Some(Assemble(x)), Success, c.rows)
  }

  /**
    As written, a registered device reports a modification time of 0, so its
    two timestamps differ whenever the clock reads anything but 0.
   */
  lemma RegisterLosesUpdateTime(rows: seq<DeviceModel.Device>, d: Device, freshId: string, now: Int64)
    requires forall x :: x in rows ==> x.id != DeviceModel.UUID(freshId)
    requires now != 0
    ensures var o := Register(rows, Some(d), freshId, now, false);
      o.code == Success && o.device.value.updateTime == 0 && o.device.value.createTime != o.device.value.updateTime
  {
  }

  /**
    Registration as designed: the record handed to the repository keeps the
    service's timestamps, so the device is stored and returned with both
    timestamps equal to `now`.
   */
  function RegisterCorrected(rows: seq<DeviceModel.Device>, d: Option<Device>, freshId: string, now: Int64, fault: bool): (o: RegisterOutcome)
    ensures d.None? ==> o == RegisterOutcome(None, BadRequest, rows)
    ensures d.Some? && (fault || exists x :: x in rows && x.id == DeviceModel.UUID(freshId)) ==>
              o == RegisterOutcome(None, DeviceDBCreateFail, rows)
    ensures d.Some? && !fault && (forall x :: x in rows ==> x.id != DeviceModel.UUID(freshId)) ==>
              var stored := DeviceModel.Device(DeviceModel.UUID(freshId), d.value.model, d.value.color, d.value.version, now, now);
              o == RegisterOutcome(Some(Assemble(stored)), Success, rows + [stored])
    ensures o.code == Success ==> o.device.value.createTime == o.device.value.updateTime == now
  {
    match d
    case None => RegisterOutcome(None, BadRequest, rows)
    case Some(input) =>
      var submitted := RepoType(input.(id := freshId)).(createTime := now, updateTime := now);
      var c := DeviceRepo.Create(rows, submitted, now, fault);
      match c.result
      case Err(_) => RegisterOutcome(None, DeviceDBCreateFail, rows)
      case Ok(x) => RegisterOutcome(Some(Assemble(x)), Success, c.rows)
  }

  // ---------------------------------------------------------------- Update

  datatype UpdateOutcome = UpdateOutcome(affected: int, code: ErrorCode, rows: seq<DeviceModel.Device>)

  /** A service device that names no text field to change; its timestamps never reach the repository. */
  predicate ChangesNothing(d: Device)
  {
    d.model == "" && d.color == "" && d.version == ""
  }

  /**
    Updates the device with the input's identity. A malformed identity never
    reaches the repository; a storage failure is an update failure; any
    other outcome is a success that reports the affected rows, including 0.
   */
  function Update(rows: seq<DeviceModel.Device>, d: Device, validUuid: string -> bool, now: Int64, fault: bool): (o: UpdateOutcome)
    ensures !validUuid(d.id) ==> o == UpdateOutcome(0, ParseUUIDFail, rows)
    ensures validUuid(d.id) && ChangesNothing(d) ==> o == UpdateOutcome(0, Success, rows)
    ensures validUuid(d.id) && !ChangesNothing(d) && fault ==> o == UpdateOutcome(0, DeviceDBUpdateFail, rows)
    ensures validUuid(d.id) && !ChangesNothing(d) && !fault ==>
              && o.code == Success
              && o.affected == Store.Count(rows, DeviceRepo.IdIs(DeviceModel.UUID(d.id)))
              && |o.rows| == |rows|
              && forall i :: 0 <= i < |rows| ==>
                   o.rows[i] == if rows[i].id == DeviceModel.UUID(d.id)
                                then DeviceRepo.Patched(rows[i], RepoType(d).(updateTime := now))
                                else rows[i]
  {
    if !validUuid(d.id) then UpdateOutcome(0, ParseUUIDFail, rows)
    else
      var u := DeviceRepo.Update(rows, Some(RepoType(d)), now, fault);
      if u.err.Some? then UpdateOutcome(0, DeviceDBUpdateFail, rows)
      else UpdateOutcome(u.affected, Success, u.rows)
  }

  // ---------------------------------------------------------------- Delete

  datatype DeleteOutcome = DeleteOutcome(code: ErrorCode, rows: seq<DeviceModel.Device>)

  /**
    Deletes the device with the identity. A malformed identity never reaches
    the repository; a storage failure is a delete failure; deleting nothing
    is "found nothing", deleting something a success.
   */
  function Delete(rows: seq<DeviceModel.Device>, id: string, validUuid: string -> bool, fault: bool): (o: DeleteOutcome)
    ensures !validUuid(id) ==> o == DeleteOutcome(ParseUUIDFail, rows)
    ensures validUuid(id) && fault ==> o == DeleteOutcome(DeviceDBDeleteFail, rows)
    ensures validUuid(id) && !fault ==>
              && (o.code == SuccessButNotFound <==> forall x :: x in rows ==> x.id != DeviceModel.UUID(id))
              && (o.code == Success || o.code == SuccessButNotFound)
              && (forall x :: x in o.rows <==> x in rows && x.id != DeviceModel.UUID(id))
              && Store.IsSubsequence(o.rows, rows)
              && |o.rows| == |rows| - Store.Count(rows, DeviceRepo.IdIs(DeviceModel.UUID(id)))
  {
    if !validUuid(id) then DeleteOutcome(ParseUUIDFail, rows)
    else
      var r := DeviceRepo.Delete(rows, DeviceModel.UUID(id), fault);
      if r.err.Some? then DeleteOutcome(DeviceDBDeleteFail, rows)
      else if r.affected <= 0 then DeleteOutcome(SuccessButNotFound, r.rows)
      else DeleteOutcome(Success, r.rows)
  }
}
