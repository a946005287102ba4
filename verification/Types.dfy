// Protocol identifiers and values, and bounded UTF-8 text.
module Types {
  import opened Wrappers
  import opened Bytes
  import opened Text

  datatype CapacityError = CapacityError(actual: nat, maximum: nat)

  datatype BoundedStrError = Capacity(error: CapacityError) | InvalidUtf8

  /** The source's fixed-capacity byte container: a buffer, zero beyond the bytes in use. */
  datatype BoundedBytes = BoundedBytes(buf: seq<byte>, len: nat) {
    predicate Valid() {
      len <= |buf| && forall i :: len <= i < |buf| ==> buf[i] == 0
    }

    function AsBytes(): (s: seq<byte>)
      requires Valid()
      ensures |s| == len
    {
      buf[..len]
    }

    /** Copies the whole slice or, if it does not fit, nothing. */
    static method FromSlice(slice: seq<byte>, capacity: nat) returns (r: Result<BoundedBytes, CapacityError>)
      ensures |slice| > capacity ==> r == Err(CapacityError(|slice|, capacity))
      ensures |slice| <= capacity ==> r.Ok? && r.value.Valid() && |r.value.buf| == capacity
                                      && r.value.AsBytes() == slice
    {
      if |slice| > capacity {
        return Err(CapacityError(|slice|, capacity));
      }
      var buf := new byte[capacity](_ => 0);
      for i := 0 to |slice|
        invariant buf[..i] == slice[..i]
        invariant forall k :: i <= k < capacity ==> buf[k] == 0
      {
        buf[i] := slice[i];
      }
      return Ok(BoundedBytes(buf[..], |slice|));
    }
  }

  /** Comparing two containers of one capacity, padding included, compares their bytes; so a
      bounded value can be modelled as its bytes. */
  lemma EqualContainers(a: BoundedBytes, b: BoundedBytes)
    requires a.Valid() && b.Valid() && |a.buf| == |b.buf|
    ensures a == b <==> a.AsBytes() == b.AsBytes()
  {
    assert a.AsBytes() == b.AsBytes() ==> a.buf == b.buf;
  }

  /** Bounded text: the container's bytes are those that FromUtf8Slice returns, or its error. */
  method BoundedStrFromUtf8(slice: seq<byte>, capacity: nat) returns (r: Result<BoundedBytes, BoundedStrError>)
    ensures match FromUtf8Slice(slice, capacity)
            case Err(e) => r == Err(e)
            case Ok(text) => r.Ok? && r.value.Valid() && |r.value.buf| == capacity
                             && r.value.AsBytes() == text
  {
    var bytes := BoundedBytes.FromSlice(slice, capacity);
    if bytes.Err? {
      return Err(Capacity(bytes.error));
    }
    if !IsUtf8(bytes.value.AsBytes()) {
      return Err(InvalidUtf8);
    }
    return Ok(bytes.value);
  }

  /** A bounded string, as its bytes. */
  function FromUtf8Slice(slice: seq<byte>, capacity: nat): (r: Result<seq<byte>, BoundedStrError>)
    ensures r.Ok? <==> |slice| <= capacity && IsUtf8(slice)
    ensures r.Ok? ==> r.value == slice
    ensures r == Err(Capacity(CapacityError(|slice|, capacity))) <==> |slice| > capacity
    ensures r == Err(InvalidUtf8) <==> |slice| <= capacity && !IsUtf8(slice)
  {
    if |slice| > capacity then Err(Capacity(CapacityError(|slice|, capacity)))
    else if !IsUtf8(slice) then Err(InvalidUtf8)
    else Ok(slice)
  }

  datatype HashAlgorithmId = Sha2_256 | Sha3_256 | Blake3_256 {
    function AsU16(): u16 {
      match this
      case Sha2_256 => 1
      case Sha3_256 => 2
      case Blake3_256 => 3
    }

    static function TryFromU16(value: u16): (r: Option<HashAlgorithmId>)
      ensures forall a: HashAlgorithmId :: r == Some(a) <==> a.AsU16() == value
    {
      if value == 1 then Some(Sha2_256)
      else if value == 2 then Some(Sha3_256)
      else if value == 3 then Some(Blake3_256)
      else None
    }

    function Label(): seq<byte> {
      match this
      case Sha2_256 => AsBytes("sha2-256")
      case Sha3_256 => AsBytes("sha3-256")
      case Blake3_256 => AsBytes("blake3-256")
    }
  }

  datatype SignatureSchemeId = Ed25519 | Secp256k1 {
    function AsU16(): u16 {
      match this
      case Ed25519 => 1
      case Secp256k1 => 2
    }

    static function TryFromU16(value: u16): (r: Option<SignatureSchemeId>)
      ensures forall a: SignatureSchemeId :: r == Some(a) <==> a.AsU16() == value
    {
      if value == 1 then Some(Ed25519) else if value == 2 then Some(Secp256k1) else None
    }

    function Label(): seq<byte> {
      match this
      case Ed25519 => AsBytes("ed25519")
      case Secp256k1 => AsBytes("secp256k1")
    }
  }

  datatype AccessMode = Read | Write | Consume {
    function AsU8(): byte {
      match this
      case Read => 1
      case Write => 2
      case Consume => 3
    }

    static function TryFromU8(value: byte): (r: Option<AccessMode>)
      ensures forall a: AccessMode :: r == Some(a) <==> a.AsU8() == value
    {
      if value == 1 then Some(Read)
      else if value == 2 then Some(Write)
      else if value == 3 then Some(Consume)
      else None
    }

    function Label(): seq<byte> {
      match this
      case Read => AsBytes("read")
      case Write => AsBytes("write")
      case Consume => AsBytes("consume")
    }
  }

  type ObjectId = Bytes32
  type Address = Bytes32
  type AssetId = Bytes32

  datatype Digest32 = Digest32(algorithm: HashAlgorithmId, bytes: Bytes32)

  datatype ObjectRef = ObjectRef(id: ObjectId, version: u64, digest: Digest32)

  datatype AccessEntry = AccessEntry(objectRef: ObjectRef, mode: AccessMode)

  datatype FeePayment = FeePayment(assetId: AssetId, maxFee: u64, feeObject: ObjectRef)

  const MAX_ACCESS_ENTRIES: nat := 8

  /** The source's access manifest while it is being filled: eight slots and a length. */
  class AccessManifest {
    const entries: array<Option<AccessEntry>>
    var len: nat

    predicate Valid()
      reads this, entries
    {
      && entries.Length == MAX_ACCESS_ENTRIES
      && len <= entries.Length
      && (forall i :: 0 <= i < len ==> entries[i].Some?)
      && (forall i :: len <= i < entries.Length ==> entries[i].None?)
    }

    /** The declared entries in wire order, as iteration yields them. */
    function Contents(): (s: seq<AccessEntry>)
      requires Valid()
      reads this, entries
      ensures |s| == len
      ensures forall i :: 0 <= i < len ==> entries[i] == Some(s[i])
    {
      seq(len, i requires 0 <= i < len && Valid() reads this, entries => entries[i].value)
    }

    constructor ()
      ensures Valid() && fresh(entries)
      ensures Contents() == []
    {
      entries := new Option<AccessEntry>[MAX_ACCESS_ENTRIES](_ => None);
      len := 0;
    }

    method Push(entry: AccessEntry) returns (r: Result<(), CapacityError>)
      requires Valid()
      modifies this, entries
      ensures Valid()
      ensures r == if old(len) < MAX_ACCESS_ENTRIES then Ok(())
                   else Err(CapacityError(old(len) + 1, MAX_ACCESS_ENTRIES))
      ensures Contents() == if r.Ok? then old(Contents()) + [entry] else old(Contents())
    {
      if len >= entries.Length {
        return Err(CapacityError(len + 1, MAX_ACCESS_ENTRIES));
      }
      entries[len] := Some(entry);
      len := len + 1;
      return Ok(());
    }

    method Get(index: nat) returns (r: Option<AccessEntry>)
      requires Valid()
      ensures r == if index < |Contents()| then Some(Contents()[index]) else None
    {
      if index >= len {
        return None;
      }
      return entries[index];
    }
  }
}
