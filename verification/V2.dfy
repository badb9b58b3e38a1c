/** The V2 serializer and deserializer, as they run. */
module V2 {
  import opened Prelude
  import opened FieldSizes
  import opened Caveats
  import opened Macaroons
  import opened MacaroonBuilders
  import F = V2Format

  method SerializeField(tag: byte, value: Bytes, buffer: Buffer)
    modifies buffer
    ensures buffer.bytes == old(buffer.bytes) + F.Field(tag, value)
  {
    buffer.Push(tag);
    var size := VarintSize(|value|);
    buffer.Extend(size);
    buffer.Extend(value);
    assert buffer.bytes == old(buffer.bytes) + F.Field(tag, value);
  }

  method SerializeCaveat(caveat: Caveat, buffer: Buffer)
    modifies buffer
    ensures buffer.bytes == old(buffer.bytes) + F.EncodeCaveat(caveat)
  {
    match caveat {
      case FirstParty(pred) =>
        SerializeField(F.IDENTIFIER, pred, buffer);
      case ThirdParty(id, vid, location) =>
        SerializeField(F.LOCATION, location, buffer);
        SerializeField(F.IDENTIFIER, id, buffer);
        SerializeField(F.VID, vid, buffer);
    }
    buffer.Push(F.EOS);
    assert buffer.bytes == old(buffer.bytes) + F.EncodeCaveat(caveat);
  }

  method SerializeHeader(m: Macaroon<Key>, buffer: Buffer)
    modifies buffer
    ensures buffer.bytes == old(buffer.bytes) + F.EncodeHeader(m)
  {
    if m.location.Some? {
      SerializeField(F.LOCATION, m.location.value, buffer);
    }
    SerializeField(F.IDENTIFIER, m.identifier, buffer);
    buffer.Push(F.EOS);
    assert buffer.bytes == old(buffer.bytes) + F.EncodeHeader(m);
  }

  method SerializeCaveats(cs: seq<Caveat>, buffer: Buffer)
    modifies buffer
    ensures buffer.bytes == old(buffer.bytes) + F.EncodeCaveats(cs)
  {
    var i := 0;
    while i < |cs|
      invariant 0 <= i <= |cs|
      invariant buffer.bytes + F.EncodeCaveats(cs[i..]) == old(buffer.bytes) + F.EncodeCaveats(cs)
    {
      assert cs[i..] == [cs[i]] + cs[i + 1..];
      Assoc(buffer.bytes, F.EncodeCaveat(cs[i]), F.EncodeCaveats(cs[i + 1..]));
      SerializeCaveat(cs[i], buffer);
      i := i + 1;
    }
    assert F.EncodeCaveats(cs[i..]) == [];
  }

  method SerializeBinary(m: Macaroon<Key>) returns (r: Bytes)
    ensures r == F.Encode(m)
  {
    var buffer := new Buffer([F.VERSION]);
    SerializeHeader(m, buffer);
    SerializeCaveats(m.caveats, buffer);
    buffer.Push(F.EOS);
    SerializeField(F.SIGNATURE, m.signature, buffer);
    return buffer.bytes;
  }

  /** What a read gives when the rest of the data goes from one state to another as `spec` says. */
  ghost predicate Reads<T>(spec: Result<(T, Bytes)>, r: Result<T>, rest: Bytes) {
    match spec
    case Ok((value, after)) => r == Ok(value) && rest == after
    case Err(e) => r == Err(e)
  }

  class Deserializer {
    const w: Word
    const data: Bytes
    var index: nat

    ghost predicate Valid()
      reads this
    {
      index <= |data|
    }

    ghost function Rest(): Bytes
      requires Valid()
      reads this
    {
      data[index..]
    }

    constructor (w: Word, data: Bytes)
      ensures Valid() && this.w == w && Rest() == data
    {
      this.w, this.data, index := w, data, 0;
    }

    method GetByte() returns (r: Result<byte>)
      requires Valid()
      modifies this
      ensures Valid() && Reads(FieldSizes.GetByte(old(Rest())), r, Rest())
    {
      if data == [] || index > |data| - 1 {
        return Err(DeserializationError);
      }
      var b := data[index];
      index := index + 1;
      return Ok(b);
    }

    method GetEos() returns (r: Result<byte>)
      requires Valid()
      modifies this
      ensures Valid()
      ensures match F.GetEos(old(Rest()))
              case Ok(after) => r == Ok(F.EOS) && Rest() == after
              case Err(e) => r == Err(e)
    {
      var eos :- GetByte();
      if eos != F.EOS {
        return Err(DeserializationError);
      }
      return Ok(eos);
    }

    /** Shifting left by `shift` is multiplying by a power of two; module FieldSizes shows the word is wide enough. */
    method GetFieldSize() returns (r: Result<nat>)
      requires Valid()
      modifies this
      ensures Valid() && Reads(FieldSizes.GetFieldSize(w, old(Rest())), r, Rest())
    {
      var size: nat, shift: nat := 0, 0;
      ResumeStart(w, Rest());
      while shift <= w - 8
        invariant Valid()
        invariant size < Pow2(shift)
        invariant Resume(w, size, Rest(), shift) == Digits(w, old(Rest()), 0)
        decreases w - shift
      {
        ghost var rest := Rest();
        var b :- GetByte();
        FitsWord(w, size, b % 128, shift);
        if b >= 128 {
          ResumeNext(w, size, rest, shift);
          size := OrShifted(size, b % 128, shift);
        } else {
          ResumeLast(w, size, rest, shift);
          if b == 0 && shift > 0 {
            return Err(DeserializationError);
          }
          size := OrShifted(size, b, shift);
          var _ :- CheckFieldSize(size);
          return Ok(size);
        }
        shift := shift + 7;
      }
      return Err(DeserializationError);
    }

    method GetField() returns (r: Result<Bytes>)
      requires Valid()
      modifies this
      ensures Valid() && Reads(F.GetField(w, old(Rest())), r, Rest())
    {
      var size :- GetFieldSize();
      if size + index > |data| {
        return Err(DeserializationError);
      }
      var field := data[index..index + size];
      assert field == Rest()[..size] && data[index + size..] == Rest()[size..];
      index := index + size;
      return Ok(field);
    }

    predicate IsExhausted()
      reads this
    {
      index >= |data|
    }
  }

  method ReadPreamble(d: Deserializer, builder: MacaroonBuilder) returns (r: Result<()>)
    requires d.Valid() && builder.Value() == EMPTY_DRAFT
    modifies d, builder
    ensures d.Valid()
    ensures match F.GetPreamble(d.w, old(d.Rest()))
            case Ok((location, id, after)) =>
              r == Ok(()) && d.Rest() == after && builder.Value() == Draft(id, location, None, [])
            case Err(e) => r == Err(e)
  {
    var version :- d.GetByte();
    if version != F.VERSION {
      return Err(DeserializationError);
    }
    var tag :- d.GetByte();
    if tag == F.LOCATION {
      var field :- d.GetField();
      var location :- FromUtf8(field);
      builder.SetLocation(location);
    } else if tag == F.IDENTIFIER {
      var field :- d.GetField();
      builder.SetIdentifier(field);
    } else {
      return Err(DeserializationError);
    }
    if builder.HasLocation() {
      tag :- d.GetByte();
      if tag != F.IDENTIFIER {
        return Err(DeserializationError);
      }
      var field :- d.GetField();
      builder.SetIdentifier(field);
    }
    var _ :- d.GetEos();
    return Ok(());
  }

  method ReadCaveatNames(d: Deserializer, first: byte, caveatBuilder: CaveatBuilder) returns (r: Result<()>)
    requires d.Valid() && caveatBuilder.Value() == NO_PARTS
    modifies d, caveatBuilder
    ensures d.Valid()
    ensures match F.GetNames(d.w, first, old(d.Rest()))
            case Ok((location, id, after)) =>
              r == Ok(()) && d.Rest() == after && caveatBuilder.Value() == Parts(Some(id), None, location)
            case Err(e) => r == Err(e)
  {
    if first == F.LOCATION {
      var field :- d.GetField();
      var location :- FromUtf8(field);
      caveatBuilder.AddLocation(location);
    } else if first == F.IDENTIFIER {
      var field :- d.GetField();
      caveatBuilder.AddId(field);
    } else {
      return Err(DeserializationError);
    }
    if caveatBuilder.HasLocation() {
      var tag :- d.GetByte();
      if tag != F.IDENTIFIER {
        return Err(DeserializationError);
      }
      var field :- d.GetField();
      caveatBuilder.AddId(field);
    }
    return Ok(());
  }

  method AppendBuilt(caveatBuilder: CaveatBuilder, builder: MacaroonBuilder) returns (r: Result<()>)
    modifies builder
    ensures match F.AppendBuilt(old(builder.caveats), caveatBuilder.Value())
            case Ok(caveats) => r == Ok(()) && builder.Value() == old(builder.Value()).(caveats := caveats)
            case Err(e) => r == Err(e)
  {
    var caveat :- caveatBuilder.Build();
    r := builder.AddCaveat(caveat);
  }

  /** Reads one caveat into the builder; gives the tag after it. */
  method ReadCaveat(d: Deserializer, first: byte, builder: MacaroonBuilder) returns (r: Result<byte>)
    requires d.Valid()
    modifies d, builder
    ensures d.Valid()
    ensures match F.GetCaveat(d.w, first, old(d.Rest()), old(builder.caveats))
            case Ok((caveats, next, after)) =>
              r == Ok(next) && d.Rest() == after && builder.Value() == old(builder.Value()).(caveats := caveats)
            case Err(e) => r == Err(e)
  {
    var caveatBuilder := new CaveatBuilder();
    var _ :- ReadCaveatNames(d, first, caveatBuilder);
    var tag :- d.GetByte();
    if tag == F.VID {
      var field :- d.GetField();
      caveatBuilder.AddVerifierId(field);
      var _ :- AppendBuilt(caveatBuilder, builder);
      var _ :- d.GetEos();
    } else if tag == F.EOS {
      var _ :- AppendBuilt(caveatBuilder, builder);
    } else {
      return Err(DeserializationError);
    }
    r := d.GetByte();
  }

  method ReadCaveats(d: Deserializer, first: byte, builder: MacaroonBuilder) returns (r: Result<()>)
    requires d.Valid()
    modifies d, builder
    ensures d.Valid()
    ensures match F.GetCaveats(d.w, first, old(d.Rest()), old(builder.caveats))
            case Ok((caveats, after)) =>
              r == Ok(()) && d.Rest() == after && builder.Value() == old(builder.Value()).(caveats := caveats)
            case Err(e) => r == Err(e)
  {
    var tag := first;
    while tag != F.EOS
      invariant d.Valid()
      invariant F.GetCaveats(d.w, tag, d.Rest(), builder.caveats) ==
                F.GetCaveats(d.w, first, old(d.Rest()), old(builder.caveats))
      invariant builder.Value() == old(builder.Value()).(caveats := builder.caveats)
      decreases |d.Rest()|
    {
      tag :- ReadCaveat(d, tag, builder);
    }
    return Ok(());
  }

  method ReadSignature(d: Deserializer, builder: MacaroonBuilder) returns (r: Result<()>)
    requires d.Valid()
    modifies d, builder
    ensures d.Valid()
    ensures match F.GetSignature(d.w, old(d.Rest()))
            case Ok(sig) => r == Ok(()) && builder.Value() == old(builder.Value()).(signature := Some(sig))
            case Err(e) => r == Err(e)
  {
    var tag :- d.GetByte();
    if tag != F.SIGNATURE {
      return Err(DeserializationError);
    }
    var sig :- d.GetField();
    if |sig| != 32 {
      return Err(DeserializationError);
    }
    builder.SetSignature(sig);
    if !d.IsExhausted() {
      return Err(DeserializationError);
    }
    return Ok(());
  }

  method Deserialize(w: Word, data: Bytes) returns (r: Result<Macaroon<Key>>)
    ensures r == F.Parse(w, data)
  {
    var builder := new MacaroonBuilder();
    var d := new Deserializer(w, data);
    var _ :- ReadPreamble(d, builder);
    var tag :- d.GetByte();
    var _ :- ReadCaveats(d, tag, builder);
    var _ :- ReadSignature(d, builder);
    r := builder.Build();
  }
}
