/**
 The holder of the two corpora of issued keys, one per key-space (vendors and codecs).
 A C# `List<string>` that may be null is an `Option<seq<string>>`; a retrieval callback,
 which reads the backing store, is a function value that may itself be null.
 */
module RecordManager {
  import opened Wrappers

  /** A nullable list of keys. */
  type KeyList = Option<seq<string>>

  /** A `Func<List<string>>` that loads a corpus. */
  type Retriever = () -> KeyList

  /** What the property setters store for `value`: a fresh empty list in place of null. */
  function NullToEmpty(value: KeyList): (stored: KeyList)
    ensures stored.Some?
    ensures value.Some? ==> stored == value
    ensures value.None? ==> stored == Some([])
  {
    if value.None? then Some([]) else value
  }

  class RecordManager {
    var vendorKeys: KeyList
    var codecKeys: KeyList

    constructor ()
      ensures vendorKeys == Some([]) && codecKeys == Some([])
    {
      vendorKeys := Some([]);
      codecKeys := Some([]);
    }

    /** The `VendorKeys` getter. */
    function VendorKeys(): KeyList
      reads this
    {
      vendorKeys
    }

    /** The `CodecKeys` getter. */
    function CodecKeys(): KeyList
      reads this
    {
      codecKeys
    }

    /** The `VendorKeys` setter. */
    method SetVendorKeys(value: KeyList)
      modifies this
      ensures VendorKeys() == NullToEmpty(value)
      ensures CodecKeys() == old(CodecKeys())
    {
      if value.None? {
        vendorKeys := Some([]);
      } else {
        vendorKeys := value;
      }
    }

    /** The `CodecKeys` setter: as written it stores into the vendor list and leaves the codec list alone. */
    method SetCodecKeys(value: KeyList)
      modifies this
      ensures VendorKeys() == NullToEmpty(value)
      ensures CodecKeys() == old(CodecKeys())
    {
      if value.None? {
        vendorKeys := Some([]);
      } else {
        vendorKeys := value;
      }
    }

    /** Replaces the vendor list by what the callback returns, null included; a null callback throws. */
    method RetrieveVendorKeys(retrieveVendorKeys: Option<Retriever>) returns (r: Result<(), Exception>)
      modifies this
      ensures retrieveVendorKeys.None? ==>
        r == Failure(ArgumentNull("retrieveVendorKeys")) && VendorKeys() == old(VendorKeys())
      ensures retrieveVendorKeys.Some? ==> r == Success(()) && VendorKeys() == retrieveVendorKeys.value()
      ensures CodecKeys() == old(CodecKeys())
    {
      if retrieveVendorKeys.None? {
        return Failure(ArgumentNull("retrieveVendorKeys"));
      }
      vendorKeys := retrieveVendorKeys.value();
      return Success(());
    }

    /** Replaces the codec list by what the callback returns, null included; a null callback throws. */
    method RetrieveCodecKeys(retrieveCodecKeys: Option<Retriever>) returns (r: Result<(), Exception>)
      modifies this
      ensures retrieveCodecKeys.None? ==>
        r == Failure(ArgumentNull("retrieveCodecKeys")) && CodecKeys() == old(CodecKeys())
      ensures retrieveCodecKeys.Some? ==> r == Success(()) && CodecKeys() == retrieveCodecKeys.value()
      ensures VendorKeys() == old(VendorKeys())
    {
      if retrieveCodecKeys.None? {
        return Failure(ArgumentNull("retrieveCodecKeys"));
      }
      codecKeys := retrieveCodecKeys.value();
      return Success(());
    }
  }

  /**
   A fresh manager whose codec keys are set to a one-key list: the codec list stays
   empty and the key lands in the vendor list.
   */
  method CodecSetterLeavesCodecList() returns (codec: KeyList, vendor: KeyList)
    ensures codec == Some([])
    ensures vendor == Some(["ACTG"])
  {
    var manager := new RecordManager();
    manager.SetCodecKeys(Some(["ACTG"]));
    codec := manager.CodecKeys();
    vendor := manager.VendorKeys();
  }
}
