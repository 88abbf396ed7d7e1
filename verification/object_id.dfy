/** The 12-byte document identifier of the MongoDB driver, reduced to what the
    base record uses: the all-zero value, its hexadecimal rendering and the
    parse back from hexadecimal. How fresh identifiers are generated is not
    modelled; they are supplied by the caller. */
module ObjectId {
  import opened Wrappers
  import Hex

  /** Twelve octets. */
  type ObjectID = s: seq<Hex.Byte> | |s| == 12
    witness [0, 0, 0, 0, 0, 0, 0, 0, 0, 0, 0, 0]

  /** The zero identifier a record holds before insert. */
  const Nil: ObjectID := [0, 0, 0, 0, 0, 0, 0, 0, 0, 0, 0, 0]

  /** The rendering of `Nil`: twenty-four zero digits. */
  const NilHex: string := "000000000000000000000000"

  predicate IsZero(id: ObjectID) {
    id == Nil
  }

  /** The identifier as 24 lower-case hexadecimal digits, two per octet. */
  function ToHex(id: ObjectID): (s: string)
    ensures |s| == 24
    ensures Hex.IsLowerHex(s)
    ensures forall i :: 0 <= i < 12 ==> s[2 * i] == Hex.Digit(id[i] / 16) && s[2 * i + 1] == Hex.Digit(id[i] % 16)
  {
    Hex.Encode(id)
  }

  /** Parses 24 hexadecimal digits (either letter case) into an identifier;
      `None` for any other length or for a non-digit character. */
  function FromHex(s: string): (r: Option<ObjectID>)
    ensures r.Some? <==> |s| == 24 && Hex.IsHex(s)
    ensures r.Some? ==> Hex.DecodesTo(s, r.value)
  {
    if |s| != 24 then None
    else
      match Hex.Decode(s)
      case Some(bs) => Some(bs)
      case None => None
  }

  /** Parsing the rendering gives the identifier back. */
  lemma FromHexToHex(id: ObjectID)
    ensures FromHex(ToHex(id)) == Some(id)
  {
    Hex.DecodeEncode(id);
  }

  /** Rendering is injective: two identifiers with the same string are equal. */
  lemma ToHexInjective(a: ObjectID, b: ObjectID)
    ensures ToHex(a) == ToHex(b) <==> a == b
  {
    Hex.EncodeInjective(a, b);
  }

  /** Every lower-case string that parses is the rendering of what it parses to. */
  lemma ToHexFromHex(s: string)
    requires Hex.IsLowerHex(s)
    requires FromHex(s).Some?
    ensures ToHex(FromHex(s).value) == s
  {
    Hex.EncodeDecode(s);
  }

  /** An identifier whose octets are all zero renders as twenty-four zeros. */
  lemma ZeroOctetsRendering(id: ObjectID)
    requires forall i :: 0 <= i < 12 ==> id[i] == 0
    ensures ToHex(id) == NilHex
  {
    var z := ToHex(id);
    assert Hex.Digit(0) == '0';
    forall k | 0 <= k < 24
      ensures z[k] == NilHex[k]
    {
      var i := k / 2;
      if k % 2 == 0 {
        assert z[2 * i] == Hex.Digit(id[i] / 16);
      } else {
        assert z[2 * i + 1] == Hex.Digit(id[i] % 16);
      }
    }
  }

  /** An identifier rendering as twenty-four zeros has only zero octets. */
  lemma NilHexHasZeroOctets(id: ObjectID)
    requires ToHex(id) == NilHex
    ensures forall i :: 0 <= i < 12 ==> id[i] == 0
  {
    var z := ToHex(id);
    assert forall k :: 0 <= k < 24 ==> z[k] == '0';
    Hex.EncodeZeroDigits(id);
  }

  /** The rendering is twenty-four zeros exactly for the zero identifier. */
  lemma ToHexIsNilHexIff(id: ObjectID)
    ensures ToHex(id) == NilHex <==> IsZero(id)
  {
    if IsZero(id) {
      assert forall i :: 0 <= i < 12 ==> id[i] == Nil[i];
      ZeroOctetsRendering(id);
    }
    if ToHex(id) == NilHex {
      NilHexHasZeroOctets(id);
      assert id == Nil;
    }
  }
}
