/**
  The will record store, as the lifecycle tests in `test/SmartWill.ts` pin
  it down: one record per owner (keyed by the owner's address), holding the
  ciphertext, three opaque handles of the encrypted addresses, the owner,
  a timestamp and an existence flag, plus a counter of live records.
  `msg.sender` and the block timestamp are the explicit `caller` and `now`
  parameters.
*/
module SmartWillStore {
  import opened Wrappers

  /** A 20-byte account address. */
  type Address = a: int | 0 <= a < 0x1_0000_0000_0000_0000_0000_0000_0000_0000_0000_0000

  /** The zero address, which the metadata of a missing record reports as owner. */
  const ZeroAddress: Address := 0

  /** An opaque 32-byte handle of an encrypted address; `ZeroHash` is 0. */
  type Handle = h: int | 0 <= h < 0x1_0000_0000_0000_0000_0000_0000_0000_0000_0000_0000_0000_0000_0000_0000

  datatype Will = Will(
    content: string,
    address1: Handle,
    address2: Handle,
    address3: Handle,
    owner: Address,
    timestamp: nat,
    present: bool)

  /** What `getWillMetadata` returns: `(owner, timestamp, exists)`. */
  datatype Metadata = Metadata(owner: Address, timestamp: nat, present: bool)

  datatype StoreError =
    | NoWillFound
    | NoExistingWillFound
    | EmptyContent

  /** The revert string of each error. */
  function Message(e: StoreError): (m: string)
    ensures e == NoWillFound ==> m == "No will found"
    ensures e == NoExistingWillFound ==> m == "No existing will found"
    ensures e == EmptyContent ==> m == "Will content cannot be empty"
  {
    match e
    case NoWillFound => "No will found"
    case NoExistingWillFound => "No existing will found"
    case EmptyContent => "Will content cannot be empty"
  }

  class SmartWill {
    /** The live records, keyed by owner. */
    var wills: map<Address, Will>
    /** `totalWills`: the number of live records. */
    var totalWills: nat

    /**
      The counter equals the number of live records, and every live record
      belongs to its key, exists, and holds non-empty content.
    */
    ghost predicate Valid()
      reads this
    {
      && totalWills == |wills|
      && forall a :: a in wills ==> wills[a].owner == a && wills[a].present && wills[a].content != ""
    }

    /** Deployment: no records, a zero counter. */
    constructor()
      ensures Valid()
      ensures wills == map[] && totalWills == 0
    {
      wills := map[];
      totalWills := 0;
    }

    /**
      `createWill`, for a caller without a record: empty content reverts with
      "Will content cannot be empty" and changes nothing; otherwise the
      caller's record is stored, stamped with `now`, and the counter grows by one.
    */
    method CreateWill(caller: Address, now: nat, content: string, h1: Handle, h2: Handle, h3: Handle)
      returns (r: Outcome<StoreError>)
      requires Valid()
      requires caller !in wills
      modifies this
      ensures Valid()
      ensures content == "" ==> r == Fail(EmptyContent) && wills == old(wills) && totalWills == old(totalWills)
      ensures content != "" ==>
        && r == Pass
        && wills == old(wills)[caller := Will(content, h1, h2, h3, caller, now, true)]
        && totalWills == old(totalWills) + 1
    {
      if content == "" {
        return Fail(EmptyContent);
      }
      wills := wills[caller := Will(content, h1, h2, h3, caller, now, true)];
      totalWills := totalWills + 1;
      r := Pass;
    }

    /**
      `updateWill` with non-empty content: without a record it reverts with
      "No existing will found" and changes nothing; otherwise content and
      handles are replaced and the timestamp refreshed, while the owner, the
      existence flag and the counter stay as they were.
    */
    method UpdateWill(caller: Address, now: nat, content: string, h1: Handle, h2: Handle, h3: Handle)
      returns (r: Outcome<StoreError>)
      requires Valid()
      requires content != ""
      modifies this
      ensures Valid()
      ensures caller !in old(wills) ==>
        r == Fail(NoExistingWillFound) && wills == old(wills) && totalWills == old(totalWills)
      ensures caller in old(wills) ==>
        && r == Pass
        && wills == old(wills)[caller := old(wills)[caller].(content := content, address1 := h1, address2 := h2, address3 := h3, timestamp := now)]
        && totalWills == old(totalWills)
    {
      if caller !in wills {
        return Fail(NoExistingWillFound);
      }
      var w := wills[caller];
      wills := wills[caller := w.(content := content, address1 := h1, address2 := h2, address3 := h3, timestamp := now)];
      r := Pass;
    }

    /** `deleteWill` on the caller's record: the record is gone and the counter drops by one. */
    method DeleteWill(caller: Address)
      requires Valid()
      requires caller in wills
      modifies this
      ensures Valid()
      ensures wills == old(wills) - {caller}
      ensures totalWills == old(totalWills) - 1
    {
      MapRemoveCard(wills, caller);
      wills := wills - {caller};
      totalWills := totalWills - 1;
    }

    /** `getWillContent`, scoped to the caller: the stored content, or "No will found". */
    function GetWillContent(caller: Address): (r: Result<string, StoreError>)
      reads this
      ensures r.Success? <==> caller in wills
      ensures r.Success? ==> r.value == wills[caller].content
      ensures r.Failure? ==> r.error == NoWillFound
    {
      if caller in wills then Success(wills[caller].content) else Failure(NoWillFound)
    }

    /**
      `getWillMetadata`, scoped to the caller: for a live record its owner
      (the caller itself), its timestamp and `exists = true`; without one the
      all-zero record.
    */
    function GetWillMetadata(caller: Address): (m: Metadata)
      reads this
      ensures Valid() ==> (m.present <==> caller in wills)
      ensures Valid() && caller in wills ==> m == Metadata(caller, wills[caller].timestamp, true)
      ensures caller !in wills ==> m == Metadata(ZeroAddress, 0, false)
    {
      if caller in wills then
        var w := wills[caller];
        Metadata(w.owner, w.timestamp, w.present)
      else Metadata(ZeroAddress, 0, false)
    }

    /** The handles `getAddress1`, `getAddress2` and `getAddress3` return for the caller's record. */
    function GetAddressHandles(caller: Address): (h: (Handle, Handle, Handle))
      reads this
      requires caller in wills
      ensures h == (wills[caller].address1, wills[caller].address2, wills[caller].address3)
    {
      var w := wills[caller];
      (w.address1, w.address2, w.address3)
    }

    /** `hasWillFor`: whether the target, anyone's address, has a live record. */
    function HasWillFor(target: Address): (b: bool)
      reads this
      ensures b <==> target in wills
    {
      target in wills
    }

    /** `getTotalWills`: the number of owners holding a live record. */
    function GetTotalWills(): (n: nat)
      reads this
      ensures Valid() ==> n == |wills|
    {
      totalWills
    }
  }

  /** Removing a present key shrinks a map by exactly one entry. */
  lemma MapRemoveCard(m: map<Address, Will>, k: Address)
    requires k in m
    ensures |m - {k}| == |m| - 1
  {
    assert (m - {k}).Keys == m.Keys - {k};
  }

  // ---------------------------------------------------------------------
  // The lifecycle tests, each on a freshly deployed store

  const TestWillContent: string := "This is my encrypted will content"
  const NewWillContent: string := "This is my updated will content"

  /** A fresh deployment reports zero wills. */
  method InitialTotalIsZero() returns (total: nat)
    ensures total == 0
  {
    var store := new SmartWill();
    total := store.GetTotalWills();
  }

  /** After Alice creates a will, she has one and the total is 1. */
  method CreateThenHasWill(alice: Address, now: nat, h1: Handle, h2: Handle, h3: Handle)
    returns (hasWill: bool, total: nat)
    ensures hasWill && total == 1
  {
    var store := new SmartWill();
    var _ := store.CreateWill(alice, now, TestWillContent, h1, h2, h3);
    hasWill := store.HasWillFor(alice);
    total := store.GetTotalWills();
  }

  /** After creating, the owner reads back exactly the content stored. */
  method CreateThenReadContent(alice: Address, now: nat, h1: Handle, h2: Handle, h3: Handle)
    returns (content: Result<string, StoreError>)
    ensures content == Success(TestWillContent)
  {
    var store := new SmartWill();
    var _ := store.CreateWill(alice, now, TestWillContent, h1, h2, h3);
    content := store.GetWillContent(alice);
  }

  /** The three stored handles are the ones submitted, so non-zero handles read back non-zero. */
  method CreateThenReadHandles(alice: Address, now: nat, h1: Handle, h2: Handle, h3: Handle)
    returns (e1: Handle, e2: Handle, e3: Handle)
    requires h1 != 0 && h2 != 0 && h3 != 0
    ensures e1 == h1 && e2 == h2 && e3 == h3
    ensures e1 != 0 && e2 != 0 && e3 != 0
  {
    var store := new SmartWill();
    var _ := store.CreateWill(alice, now, TestWillContent, h1, h2, h3);
    var hs := store.GetAddressHandles(alice);
    e1, e2, e3 := hs.0, hs.1, hs.2;
  }

  /** After creating at a positive time, the metadata names the caller as owner, with `exists` and a positive timestamp. */
  method CreateThenReadMetadata(alice: Address, now: nat, h1: Handle, h2: Handle, h3: Handle)
    returns (owner: Address, timestamp: nat, present: bool)
    requires now > 0
    ensures owner == alice && present && timestamp > 0
  {
    var store := new SmartWill();
    var _ := store.CreateWill(alice, now, TestWillContent, h1, h2, h3);
    var m := store.GetWillMetadata(alice);
    owner, timestamp, present := m.owner, m.timestamp, m.present;
  }

  /** An update replaces the content and keeps the total at 1. */
  method UpdateReplacesContent(alice: Address, t1: nat, t2: nat, h1: Handle, h2: Handle, h3: Handle, n1: Handle)
    returns (content: Result<string, StoreError>, total: nat)
    ensures content == Success(NewWillContent) && total == 1
  {
    var store := new SmartWill();
    var _ := store.CreateWill(alice, t1, TestWillContent, h1, h2, h3);
    var _ := store.UpdateWill(alice, t2, NewWillContent, n1, h2, h3);
    content := store.GetWillContent(alice);
    total := store.GetTotalWills();
  }

  /** Deleting the only will leaves no will for its owner and a total of 0. */
  method DeleteRemovesWill(alice: Address, now: nat, h1: Handle, h2: Handle, h3: Handle)
    returns (hasWill: bool, total: nat)
    ensures !hasWill && total == 0
  {
    var store := new SmartWill();
    var _ := store.CreateWill(alice, now, TestWillContent, h1, h2, h3);
    store.DeleteWill(alice);
    hasWill := store.HasWillFor(alice);
    total := store.GetTotalWills();
  }

  /** Reading content without a will reverts with "No will found". */
  method ReadWithoutWillReverts(alice: Address) returns (content: Result<string, StoreError>)
    ensures content.Failure? && Message(content.error) == "No will found"
  {
    var store := new SmartWill();
    content := store.GetWillContent(alice);
  }

  /** Updating without a will reverts with "No existing will found" and creates nothing. */
  method UpdateWithoutWillReverts(alice: Address, now: nat, h1: Handle, h2: Handle, h3: Handle)
    returns (r: Outcome<StoreError>, hasWill: bool)
    ensures r.Fail? && Message(r.error) == "No existing will found"
    ensures !hasWill
  {
    var store := new SmartWill();
    r := store.UpdateWill(alice, now, TestWillContent, h1, h2, h3);
    hasWill := store.HasWillFor(alice);
  }

  /** Creating with empty content reverts with "Will content cannot be empty" and stores no record. */
  method CreateEmptyReverts(alice: Address, now: nat, h1: Handle, h2: Handle, h3: Handle)
    returns (r: Outcome<StoreError>, hasWill: bool, total: nat)
    ensures r.Fail? && Message(r.error) == "Will content cannot be empty"
    ensures !hasWill && total == 0
  {
    var store := new SmartWill();
    r := store.CreateWill(alice, now, "", h1, h2, h3);
    hasWill := store.HasWillFor(alice);
    total := store.GetTotalWills();
  }

  /**
    The whole lifecycle on one store, from any valid state and for an owner
    without a record: create, update, delete returns the store to where it
    started, and the counter moves with the records.
  */
  method CreateUpdateDeleteRestores(store: SmartWill, alice: Address, t1: nat, t2: nat,
                                    h1: Handle, h2: Handle, h3: Handle, content: string, content': string)
    requires store.Valid() && alice !in store.wills
    requires content != "" && content' != ""
    modifies store
    ensures store.Valid()
    ensures store.wills == old(store.wills) && store.totalWills == old(store.totalWills)
  {
    var _ := store.CreateWill(alice, t1, content, h1, h2, h3);
    assert store.totalWills == old(store.totalWills) + 1;
    var _ := store.UpdateWill(alice, t2, content', h1, h2, h3);
    store.DeleteWill(alice);
    assert store.wills == old(store.wills);
  }
}
