/**
  Concrete outcomes stated over the model, with two known devices stored in
  the order the tests create them. Most are the outcomes the repository and
  service tests pin down; `ServiceUpdateIdOnly` and `ServiceDeleteUnknown`
  are cases the service code decides and no test exercises.
 */
module Scenarios {
  import opened Common
  import opened DeviceModel
  import opened Store
  import DeviceRepo
  import DeviceService

  const Id1: string := "c9d7c314-fd95-448a-8db9-4756cc774f7d"
  const Id2: string := "99f970f5-b876-4c94-9190-34ee11d54edb"

  const Device1: Device := Device(UUID(Id1), "Pro", "White", "v1.2", 0, 0)
  const Device2: Device := Device(UUID(Id2), "Normal", "Black", "v1.2", 0, 0)

  /** Get on an empty table is "record not found", and on a stored device returns it. */
  lemma GetCases()
    ensures DeviceRepo.Get([], UUID(Id1), false) == Err(RecordNotFound)
    ensures DeviceRepo.Get([Device1], UUID(Id1), false) == Ok(Device1)
  {
    DeviceRepo.GetStored([Device1], 0);
  }

  /** Create returns the input with its creation time stamped, and stores it. */
  lemma CreateCase(now: Int64)
    ensures DeviceRepo.Create([], Device1, now, false)
            == DeviceRepo.CreateOutcome(Ok(Device1.(createTime := now)), [Device1.(createTime := now)])
  {
  }

  /**
    A patch that changes the version updates one row, which then equals the
    stamped patch; a patch with only the identity affects nothing.
   */
  lemma UpdateCases(now: Int64)
    ensures var patch := Device1.(version := "v1.5");
      var o := DeviceRepo.Update([Device1], Some(patch), now, false);
      o.affected == 1 && o.err.None? && o.rows == [patch.(updateTime := now)]
    ensures var o := DeviceRepo.Update([Device1], Some(IdOnly(UUID(Id1))), now, false);
      o.affected == 0 && o.err.None? && o.row.None? && o.rows == [Device1]
  {
    var patch := Device1.(version := "v1.5");
    assert !DeviceRepo.IsEmptyPatch(patch);
    DeviceRepo.UpdateFullPatch([Device1], patch, now, 0);
  }

  /** Deleting a stored identity removes one row; an unknown identity removes none and is no error. */
  lemma DeleteCases()
    ensures DeviceRepo.Delete([Device1], UUID(Id1), false) == DeviceRepo.DeleteOutcome(1, None, [])
    ensures DeviceRepo.Delete([Device1], UUID(Id2), false) == DeviceRepo.DeleteOutcome(0, None, [Device1])
  {
  }

  /** Selecting by the identity of one of the two devices keeps just that device. */
  lemma SelectById(id: string, kept: Device, other: Device)
    requires (kept == Device1 && other == Device2 && id == Id1) || (kept == Device2 && other == Device1 && id == Id2)
    ensures Select([Device1, Device2], DeviceRepo.Matching(IdOnly(UUID(id)))) == [kept]
  {
    var keep := DeviceRepo.Matching(IdOnly(UUID(id)));
    assert IdField in Fields;
    assert keep(kept) && !keep(other);
    assert [Device1, Device2][1..] == [Device2];
    assert [Device2][1..] == [];
    assert Select([Device2], keep) == if keep(Device2) then [Device2] else [];
  }

  /** List with no constraint returns both devices in creation order; with an identity, just that device. */
  lemma ListCases()
    ensures DeviceRepo.List([], Zero, false) == Ok([])
    ensures DeviceRepo.List([Device1, Device2], Zero, false) == Ok([Device1, Device2])
    ensures DeviceRepo.List([Device1, Device2], IdOnly(UUID(Id1)), false) == Ok([Device1])
  {
    DeviceRepo.ListAll([Device1, Device2]);
    SelectById(Id1, Device1, Device2);
  }

  /** Limit 0 finds nothing, even with two stored devices. */
  lemma FindLimitZero()
    ensures DeviceRepo.Find([Device1, Device2], Zero, Page(0, 0), false) == Ok([])
  {
  }

  /** A limit past the number of devices finds all of them, in creation order. */
  lemma FindLimitPastCount()
    ensures DeviceRepo.Find([Device1, Device2], Zero, Page(3, 0), false) == Ok([Device1, Device2])
  {
    DeviceRepo.ListAll([Device1, Device2]);
    assert Window([Device1, Device2], 3, 0) == [Device1, Device2];
  }

  /** An identity filter finds just that device. */
  lemma FindById()
    ensures DeviceRepo.Find([Device1, Device2], IdOnly(UUID(Id2)), Page(2, 0), false) == Ok([Device2])
  {
    SelectById(Id2, Device2, Device1);
    assert Window([Device2], 2, 0) == [Device2];
  }

  /** The service finds page 1 of size 2 as both devices, converted in creation order. */
  lemma ServiceFindCase()
    ensures DeviceService.Find([Device1, Device2], Some(DeviceService.Device("", "", "", "", 0, 0)),
                               Some(DeviceService.PageRequest(1, 2)), false)
            == DeviceService.FindOutcome(
                 Some([DeviceService.Device(Id1, "Pro", "White", "v1.2", 0, 0),
                       DeviceService.Device(Id2, "Normal", "Black", "v1.2", 0, 0)]),
                 DeviceService.Success)
  {
    assert DeviceService.RepoType(DeviceService.Device("", "", "", "", 0, 0)) == Zero;
    assert DeviceService.Bounds(Some(DeviceService.PageRequest(1, 2))) == Page(2, 0);
    DeviceRepo.ListAll([Device1, Device2]);
    assert Window([Device1, Device2], 2, 0) == [Device1, Device2];
    assert DeviceRepo.Find([Device1, Device2], Zero, Page(2, 0), false) == Ok([Device1, Device2]);
    assert DeviceService.Assemble(Device1) == DeviceService.Device(Id1, "Pro", "White", "v1.2", 0, 0);
    assert DeviceService.Assemble(Device2) == DeviceService.Device(Id2, "Normal", "Black", "v1.2", 0, 0);
    var o := DeviceService.Find([Device1, Device2], Some(DeviceService.Device("", "", "", "", 0, 0)),
                                Some(DeviceService.PageRequest(1, 2)), false);
    assert |o.devices.value| == 2;
    assert o.devices.value[0] == DeviceService.Assemble(Device1);
    assert o.devices.value[1] == DeviceService.Assemble(Device2);
    assert o.code == DeviceService.Success;
    assert o.devices.value == [DeviceService.Device(Id1, "Pro", "White", "v1.2", 0, 0),
                               DeviceService.Device(Id2, "Normal", "Black", "v1.2", 0, 0)];
  }

  /** Through the service, a version change on the stored device affects one row. */
  lemma ServiceUpdateCase(validUuid: string -> bool, now: Int64)
    requires validUuid(Id1)
    ensures DeviceService.Update([Device1], DeviceService.Device(Id1, "", "", "v1.6", 0, 0), validUuid, now, false).affected == 1
    ensures DeviceService.Update([Device1], DeviceService.Device(Id1, "", "", "v1.6", 0, 0), validUuid, now, false).code
            == DeviceService.Success
  {
  }

  /**
    An identity with timestamps but no text field reaches the repository as
    an identity-only patch, which writes nothing and reports no row.
   */
  lemma ServiceUpdateIdOnly(validUuid: string -> bool, now: Int64)
    requires validUuid(Id1)
    ensures DeviceService.Update([Device1], DeviceService.Device(Id1, "", "", "", 5, 7), validUuid, now, false)
            == DeviceService.UpdateOutcome(0, DeviceService.Success, [Device1])
  {
  }

  /** Through the service, deleting the stored device succeeds and leaves nothing. */
  lemma ServiceDeleteCase(validUuid: string -> bool)
    requires validUuid(Id1)
    ensures DeviceService.Delete([Device1], Id1, validUuid, false) == DeviceService.DeleteOutcome(DeviceService.Success, [])
  {
  }

  /** Deleting an identity nothing is stored under is "found nothing" and changes nothing. */
  lemma ServiceDeleteUnknown(validUuid: string -> bool)
    requires validUuid(Id2)
    ensures DeviceService.Delete([Device1], Id2, validUuid, false)
            == DeviceService.DeleteOutcome(DeviceService.SuccessButNotFound, [Device1])
  {
  }

  /** Registering the first test device succeeds under a fresh identity, with creation time `now`. */
  lemma ServiceRegisterCase(freshId: string, now: Int64)
    ensures var o := DeviceService.Register([], Some(DeviceService.Device("", "Pro", "White", "v1.2", 0, 0)), freshId, now, false);
      o.code == DeviceService.Success && o.device == Some(DeviceService.Device(freshId, "Pro", "White", "v1.2", now, 0))
  {
  }
}
