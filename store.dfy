/**
 * The store entity's associations: the address and the manager staff member,
 * each mirrored by a scalar foreign-key column that the setters keep equal to
 * the associated entity's id.
 */
module StoreEntity {
  import opened JavaLang

  /** The address entity, of which only its id matters here. */
  class Address {
    var addressId: Option<int>

    constructor (addressId: Option<int>)
      ensures this.addressId == addressId
    {
      this.addressId := addressId;
    }
  }

  /** The staff entity the store links to, reduced to its id and its store
      back-reference. */
  class Staff {
    var staffId: Option<int>
    var store: Store?

    constructor (staffId: Option<int>)
      ensures this.staffId == staffId && store == null
    {
      this.staffId := staffId;
      store := null;
    }

    /** setStore. */
    method SetStore(store: Store?)
      modifies this`store
      ensures this.store == store
    {
      this.store := store;
    }
  }

  /** The id of a possibly null address: address?.addressId. */
  function AddressIdOf(address: Address?): Option<int>
    reads address
  {
    if address == null then None else address.addressId
  }

  /** The id of a possibly null staff member: managerStaff?.staffId. */
  function StaffIdOf(staff: Staff?): Option<int>
    reads staff
  {
    if staff == null then None else staff.staffId
  }

  class Store {
    var storeId: Option<int>
    var managerStaffId: Option<int>
    var addressId: Option<int>
    var managerStaff: Staff?
    var address: Address?

    /** The foreign-key columns agree with the associated entities. */
    ghost predicate ForeignKeysInSync()
      reads this, managerStaff, address
    {
      addressId == AddressIdOf(address) && managerStaffId == StaffIdOf(managerStaff)
    }

    /** The manager, when there is one, points back at this store. */
    ghost predicate ManagerPointsBack()
      reads this, managerStaff
    {
      managerStaff != null ==> managerStaff.store == this
    }

    /** The no-argument constructor: every attribute unset. */
    constructor ()
      ensures storeId == None && managerStaffId == None && addressId == None
      ensures managerStaff == null && address == null
      ensures ForeignKeysInSync() && ManagerPointsBack()
    {
      storeId, managerStaffId, addressId := None, None, None;
      managerStaff, address := null, null;
    }

    /** ofStoreId: a new store with the given id and nothing else set. */
    static method OfStoreId(storeId: Option<int>) returns (instance: Store)
      ensures fresh(instance)
      ensures instance.storeId == storeId
      ensures instance.managerStaffId == None && instance.addressId == None
      ensures instance.managerStaff == null && instance.address == null
      ensures instance.ForeignKeysInSync() && instance.ManagerPointsBack()
    {
      instance := new Store();
      instance.storeId := storeId;
    }

    /** onPostConstruct: re-establishes the manager's back-reference. */
    method OnPostConstruct()
      modifies managerStaff
      ensures ManagerPointsBack()
      ensures managerStaff != null ==> managerStaff.staffId == old(managerStaff.staffId)
    {
      if managerStaff != null {
        managerStaff.SetStore(this);
      }
    }

    /** setAddress: the association and its id column together. */
    method SetAddress(address: Address?)
      modifies this`address, this`addressId
      ensures this.address == address
      ensures addressId == AddressIdOf(address)
      ensures storeId == old(storeId) && managerStaff == old(managerStaff) && managerStaffId == old(managerStaffId)
      ensures old(managerStaffId == StaffIdOf(managerStaff)) ==> ForeignKeysInSync()
    {
      this.address := address;
      addressId := AddressIdOf(this.address);
    }

    /** setManagerStaff: the association, its id column, and the new manager's
        back-reference to this store. */
    method SetManagerStaff(managerStaff: Staff?)
      modifies this`managerStaff, this`managerStaffId, managerStaff
      ensures this.managerStaff == managerStaff
      ensures managerStaffId == StaffIdOf(managerStaff)
      ensures managerStaff != null ==> managerStaff.store == this && managerStaff.staffId == old(managerStaff.staffId)
      ensures storeId == old(storeId) && address == old(address) && addressId == old(addressId)
      ensures var previous := old(this.managerStaff);
        previous != null && previous != managerStaff ==> previous.store == old(previous.store)
      ensures ManagerPointsBack()
      ensures old(addressId == AddressIdOf(address)) ==> ForeignKeysInSync()
    {
      this.managerStaff := managerStaff;
      managerStaffId := StaffIdOf(this.managerStaff);
      if this.managerStaff != null {
        this.managerStaff.SetStore(this);
      }
    }
  }

  /** Setting both associations on a new store leaves every foreign key in sync
      and the manager pointing back. */
  method NewStore(storeId: Option<int>, manager: Staff?, address: Address?) returns (store: Store)
    modifies manager
    ensures store.storeId == storeId
    ensures store.managerStaff == manager && store.address == address
    ensures store.ForeignKeysInSync() && store.ManagerPointsBack()
  {
    store := Store.OfStoreId(storeId);
    store.SetAddress(address);
    store.SetManagerStaff(manager);
  }
}
