// The derivation-path codec: m/44'/21333'/account'/0'/0', every component hardened.
module Path {
  import opened Wrappers
  import opened Bytes

  const PATH_DEPTH: byte := 5
  const PATH_ENCODED_LEN: nat := 21
  const HARDENED_BIT: u32 := 0x8000_0000
  const PURPOSE: u32 := 44
  const COIN_TYPE: u32 := 21333

  datatype PathError =
    | WrongLength(actual: nat)
    | WrongDepth(depth: byte)
    | NotHardened(index: nat)
    | WrongPurpose
    | WrongCoinType
    | WrongChange
    | WrongAddressIndex

  type Account = x: int | 0 <= x < 0x8000_0000

  datatype DerivationPath = DerivationPath(account: Account) {
    /** The five hardened components; `|` with the hardened bit adds it to a smaller value. */
    function ToBip32Components(): (c: seq<u32>)
      ensures |c| == 5
    {
      [PURPOSE + HARDENED_BIT, COIN_TYPE + HARDENED_BIT, account + HARDENED_BIT, HARDENED_BIT,
       HARDENED_BIT]
    }
  }

  /** Component `index` of an encoded path, read as a big-endian word. */
  function Component(bytes: seq<byte>, index: nat): u32
    requires |bytes| == PATH_ENCODED_LEN && index < 5
  {
    var slice := bytes[1 + index * 4..1 + index * 4 + 4];
    BeValueBound(slice);
    Pow256Values();
    BeValue(slice)
  }

  /** The first component without its hardened bit, from `index` on. */
  function FirstUnhardened(components: seq<u32>, index: nat): Option<nat>
    requires index <= |components|
    decreases |components| - index
  {
    if index == |components| then None
    else if components[index] < HARDENED_BIT then Some(index)
    else FirstUnhardened(components, index + 1)
  }

  function DecodePath(bytes: seq<byte>): Result<DerivationPath, PathError> {
    if |bytes| != PATH_ENCODED_LEN then Err(WrongLength(|bytes|))
    else if bytes[0] != PATH_DEPTH then Err(WrongDepth(bytes[0]))
    else
      var raw := [Component(bytes, 0), Component(bytes, 1), Component(bytes, 2), Component(bytes, 3),
                  Component(bytes, 4)];
      var unhardened := FirstUnhardened(raw, 0);
      if unhardened.Some? then Err(NotHardened(unhardened.value))
      else
        AllHardened(raw, 0);
        if raw[0] - HARDENED_BIT != PURPOSE then Err(WrongPurpose)
        else if raw[1] - HARDENED_BIT != COIN_TYPE then Err(WrongCoinType)
        else if raw[3] - HARDENED_BIT != 0 then Err(WrongChange)
        else if raw[4] - HARDENED_BIT != 0 then Err(WrongAddressIndex)
        else Ok(DerivationPath(raw[2] - HARDENED_BIT))
  }

  lemma {:induction false} AllHardened(components: seq<u32>, index: nat)
    requires index <= |components|
    ensures FirstUnhardened(components, index) == None
            <==> forall i :: index <= i < |components| ==> components[i] >= HARDENED_BIT
    decreases |components| - index
  {
    if index < |components| {
      AllHardened(components, index + 1);
    }
  }

  /** The depth followed by the big-endian components. */
  function EncodePath(path: DerivationPath): (s: seq<byte>)
    ensures |s| == PATH_ENCODED_LEN
  {
    var c := path.ToBip32Components();
    [PATH_DEPTH] + BeBytes(c[0], 4) + BeBytes(c[1], 4) + BeBytes(c[2], 4) + BeBytes(c[3], 4)
    + BeBytes(c[4], 4)
  }

  lemma {:induction false} ComponentExactly(bytes: seq<byte>, index: nat, value: u32)
    requires |bytes| == PATH_ENCODED_LEN && index < 5
    ensures Component(bytes, index) == value
            <==> bytes[1 + index * 4..1 + index * 4 + 4] == BeBytes(value, 4)
  {
    var slice := bytes[1 + index * 4..1 + index * 4 + 4];
    Pow256Values();
    BeValueOfBytes(value, 4);
    BeBytesOfValue(slice);
  }

  /** A 21-byte string is an encoded path exactly when its depth and components are. */
  lemma EncodedComponents(bytes: seq<byte>, path: DerivationPath)
    requires |bytes| == PATH_ENCODED_LEN
    ensures var c := path.ToBip32Components();
            bytes == EncodePath(path)
            <==> bytes[0] == PATH_DEPTH && Component(bytes, 0) == c[0] && Component(bytes, 1) == c[1]
                 && Component(bytes, 2) == c[2] && Component(bytes, 3) == c[3]
                 && Component(bytes, 4) == c[4]
  {
    hide BeBytes, Component;
    var c, e := path.ToBip32Components(), EncodePath(path);
    assert e[0..1] == [PATH_DEPTH] && e[1..5] == BeBytes(c[0], 4) && e[5..9] == BeBytes(c[1], 4)
           && e[9..13] == BeBytes(c[2], 4) && e[13..17] == BeBytes(c[3], 4)
           && e[17..21] == BeBytes(c[4], 4);
    assert bytes == bytes[0..1] + bytes[1..5] + bytes[5..9] + bytes[9..13] + bytes[13..17] + bytes[17..21];
    assert bytes[0..1] == [bytes[0]];
    ComponentExactly(bytes, 0, c[0]);
    ComponentExactly(bytes, 1, c[1]);
    ComponentExactly(bytes, 2, c[2]);
    ComponentExactly(bytes, 3, c[3]);
    ComponentExactly(bytes, 4, c[4]);
  }

  /** A refusal names something that is really wrong; components are counted from 0, and the 0x80 byte
      that begins a component is its hardened bit. */
  lemma PathRefusalIsApt(bytes: seq<byte>)
    ensures match DecodePath(bytes)
            case Ok(_) => true
            case Err(WrongLength(actual)) => |bytes| == actual != 21
            case Err(WrongDepth(depth)) => |bytes| == 21 && bytes[0] == depth != 5
            case Err(NotHardened(i)) => |bytes| == 21 && i < 5 && Component(bytes, i) < 0x8000_0000
            case Err(WrongPurpose) => |bytes| == 21 && Component(bytes, 0) != 0x8000_0000 + 44
            case Err(WrongCoinType) => |bytes| == 21 && Component(bytes, 1) != 0x8000_0000 + 21333
            case Err(WrongChange) => |bytes| == 21 && Component(bytes, 3) != 0x8000_0000
            case Err(WrongAddressIndex) => |bytes| == 21 && Component(bytes, 4) != 0x8000_0000
  {
    hide Component;
    if |bytes| == 21 {
      FirstUnhardenedIsUnhardened([Component(bytes, 0), Component(bytes, 1), Component(bytes, 2),
                                   Component(bytes, 3), Component(bytes, 4)], 0);
    }
  }

  lemma {:induction false} FirstUnhardenedIsUnhardened(components: seq<u32>, index: nat)
    requires index <= |components|
    ensures match FirstUnhardened(components, index)
            case None => true
            case Some(i) => index <= i < |components| && components[i] < HARDENED_BIT
    decreases |components| - index
  {
    if index < |components| {
      FirstUnhardenedIsUnhardened(components, index + 1);
    }
  }

  /** The 21 bytes of an accepted path: m/44'/21333'/account'/0'/0'. */
  lemma PathWire(path: DerivationPath)
    ensures EncodePath(path)
            == [5, 0x80, 0, 0, 0x2C, 0x80, 0, 0x53, 0x55] + BeBytes(path.account + 0x8000_0000, 4)
               + [0x80, 0, 0, 0, 0x80, 0, 0, 0]
  {
    hide BeBytes;
    FourBigEndianBytes(0x8000_002C, 0x80, 0, 0, 0x2C);
    FourBigEndianBytes(0x8000_5355, 0x80, 0, 0x53, 0x55);
    FourBigEndianBytes(0x8000_0000, 0x80, 0, 0, 0);
  }

  lemma {:induction false} FourBigEndianBytes(v: u32, b0: byte, b1: byte, b2: byte, b3: byte)
    requires v == 0x100_0000 * b0 + 0x1_0000 * b1 + 256 * b2 + b3
    ensures BeBytes(v, 4) == [b0, b1, b2, b3]
  {
    assert v / 256 == 0x1_0000 * b0 + 256 * b1 + b2 && v / 256 / 256 == 256 * b0 + b1;
    assert BeBytes(v, 4) == BeBytes(v / 256, 3) + [b3];
    assert BeBytes(v / 256, 3) == BeBytes(v / 256 / 256, 2) + [b2];
    assert BeBytes(v / 256 / 256, 2) == BeBytes(b0, 1) + [b1];
    assert BeBytes(b0, 1) == BeBytes(0, 0) + [b0];
  }

  /** Accepted encodings and accounts below 2^31 correspond one to one. */
  lemma PathExactly(bytes: seq<byte>, path: DerivationPath)
    ensures DecodePath(bytes) == Ok(path) <==> bytes == EncodePath(path)
  {
    hide EncodePath, Component, FirstUnhardened;
    if |bytes| == PATH_ENCODED_LEN {
      EncodedComponents(bytes, path);
      var raw := [Component(bytes, 0), Component(bytes, 1), Component(bytes, 2), Component(bytes, 3),
                  Component(bytes, 4)];
      AllHardened(raw, 0);
    }
  }
}
