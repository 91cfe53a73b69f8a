/**
 The parser of 802.11 information elements (wifi/hidl_struct_util.cpp; element format of section
 9.4.2.1 of IEEE 802.11-2016): an identifier byte, a length byte, and that many bytes of data.
 */
module InformationElements {
  import opened Wrappers
  import opened Bytes

  const HEADER_LENGTH := 2

  datatype Element = Element(id: Byte, data: seq<Byte>) {
    /** The length field is one byte. */
    predicate Valid() {
      |data| <= 255
    }
  }

  type Elements = es: seq<Element> | forall i :: 0 <= i < |es| ==> es[i].Valid()

  function Serialize(elements: Elements): seq<Byte> {
    if elements == [] then []
    else [elements[0].id, |elements[0].data|] + elements[0].data + Serialize(elements[1..])
  }

  /** A whole element starts at the beginning of the blob. */
  predicate StartsWithElement(blob: seq<Byte>) {
    |blob| >= HEADER_LENGTH && |blob| >= HEADER_LENGTH + blob[1]
  }

  /** `elements` and `rest` are what the blob splits into: the rest is shorter than a header, or
      its header announces more data than there are. */
  predicate IsParse(blob: seq<Byte>, elements: Elements, rest: seq<Byte>) {
    blob == Serialize(elements) + rest && !StartsWithElement(rest)
  }

  /** `convertLegacyIeToHidl` on the element at the start of a blob. */
  method ConvertElement(blob: seq<Byte>) returns (element: Element)
    requires StartsWithElement(blob)
    ensures element.Valid() && |element.data| == blob[1]
    ensures element.id == blob[0] && forall i :: 0 <= i < blob[1] ==> element.data[i] == blob[2 + i]
    ensures Serialize([element]) == blob[..HEADER_LENGTH + |element.data|]
  {
    element := Element(blob[0], blob[HEADER_LENGTH..HEADER_LENGTH + blob[1]]);
    assert [element][1..] == [];
  }

  /** `convertLegacyIeBlobToHidl`; a null pointer is the only error. It reports success even if it
      stops before the end. */
  method ConvertBlob(blob: Option<seq<Byte>>) returns (ok: bool, elements: Elements)
    ensures ok == blob.Some?
    ensures ok ==> exists rest :: IsParse(blob.value, elements, rest)
  {
    elements := [];
    if blob.None? {
      return false, elements;
    }
    var bytes := blob.value;
    var next := 0;
    while next + HEADER_LENGTH <= |bytes|
      invariant 0 <= next <= |bytes|
      invariant bytes[..next] == Serialize(elements)
    {
      var length := HEADER_LENGTH + bytes[next + 1];
      if next + length > |bytes| {
        break;
      }
      var element := ConvertElement(bytes[next..]);
      SerializeAppend(elements, [element]);
      assert bytes[..next + length] == bytes[..next] + bytes[next..][..length];
      elements := elements + [element];
      next := next + length;
    }
    assert IsParse(bytes, elements, bytes[next..]);
    ok := true;
  }

  lemma {:induction false} SerializeAppend(xs: Elements, ys: Elements)
    ensures Serialize(xs + ys) == Serialize(xs) + Serialize(ys)
  {
    if xs == [] {
      assert xs + ys == ys;
    } else {
      SerializeAppend(xs[1..], ys);
      assert (xs + ys)[1..] == xs[1..] + ys;
    }
  }

  /** There is only one way to parse a blob. */
  lemma {:induction false} ParseIsUnique(blob: seq<Byte>, xs: Elements, rest: seq<Byte>, ys: Elements, rest': seq<Byte>)
    requires IsParse(blob, xs, rest) && IsParse(blob, ys, rest')
    ensures xs == ys && rest == rest'
    decreases |xs|
  {
    assert [] + rest == rest && [] + rest' == rest';
    if xs == [] {
      if ys != [] { SerializedStartsWithElement(ys, rest'); }
    } else if ys == [] {
      SerializedStartsWithElement(xs, rest);
    } else {
      HeadsAgree(xs, rest, ys, rest');
      ParseIsUnique(Serialize(xs[1..]) + rest, xs[1..], rest, ys[1..], rest');
      assert xs == [xs[0]] + xs[1..] && ys == [ys[0]] + ys[1..];
    }
  }

  lemma SerializedStartsWithElement(xs: Elements, rest: seq<Byte>)
    requires xs != []
    ensures StartsWithElement(Serialize(xs) + rest)
    ensures (Serialize(xs) + rest)[0] == xs[0].id && (Serialize(xs) + rest)[1] == |xs[0].data|
    ensures (Serialize(xs) + rest)[HEADER_LENGTH..] == xs[0].data + (Serialize(xs[1..]) + rest)
  {
    var header := [xs[0].id, |xs[0].data|];
    assert Serialize(xs) + rest == header + (xs[0].data + (Serialize(xs[1..]) + rest));
  }

  lemma HeadsAgree(xs: Elements, rest: seq<Byte>, ys: Elements, rest': seq<Byte>)
    requires xs != [] && ys != [] && Serialize(xs) + rest == Serialize(ys) + rest'
    ensures xs[0] == ys[0]
    ensures Serialize(xs[1..]) + rest == Serialize(ys[1..]) + rest'
  {
    SerializedStartsWithElement(xs, rest);
    SerializedStartsWithElement(ys, rest');
    var n := |xs[0].data|;
    var tail, tail' := xs[0].data + (Serialize(xs[1..]) + rest), ys[0].data + (Serialize(ys[1..]) + rest');
    assert tail == tail';
    assert tail[..n] == xs[0].data && tail'[..n] == ys[0].data;
    assert tail[n..] == Serialize(xs[1..]) + rest && tail'[n..] == Serialize(ys[1..]) + rest';
  }

  /** Round trip: parsing what any element list serializes to gives the list back, with nothing left over. */
  lemma ParseOfSerialized(elements: Elements, parsed: Elements, rest: seq<Byte>)
    requires IsParse(Serialize(elements), parsed, rest)
    ensures parsed == elements && rest == []
  {
    assert Serialize(elements) == Serialize(elements) + [];
    ParseIsUnique(Serialize(elements), parsed, rest, elements, []);
  }

  /** Different lists never serialize alike. */
  lemma SerializeIsInjective(xs: Elements, ys: Elements)
    requires Serialize(xs) == Serialize(ys)
    ensures xs == ys
  {
    assert Serialize(xs) == Serialize(xs) + [] && Serialize(ys) == Serialize(ys) + [];
    ParseIsUnique(Serialize(xs), xs, [], ys, []);
  }

  /** The output is maximal: no list that serializes to a prefix of the blob goes further. */
  lemma {:induction false} ParseIsMaximal(blob: seq<Byte>, xs: Elements, rest: seq<Byte>, ys: Elements)
    requires IsParse(blob, xs, rest) && Serialize(ys) <= blob
    ensures ys <= xs
    decreases |ys|
  {
    if ys != [] {
      var rest' := blob[|Serialize(ys)|..];
      assert blob == Serialize(ys) + rest';
      SerializedStartsWithElement(ys, rest');
      HeadsAgree(xs, rest, ys, rest');
      var inner := Serialize(xs[1..]) + rest;
      assert inner == Serialize(ys[1..]) + rest';
      ParseIsMaximal(inner, xs[1..], rest, ys[1..]);
    }
  }
}
