/** The V1 serializer and deserializer, as they run. */
module V1 {
  import opened Prelude
  import opened Caveats
  import opened Macaroons
  import opened MacaroonBuilders
  import F = V1Format
  import T = V1Theorems

  method SerializeAsPacket(tag: Bytes, value: Bytes) returns (r: Result<Bytes>)
    ensures var p := F.Packet(tag, value); r == if F.Fits(p) then Ok(F.EncodePacket(p)) else Err(FieldTooLarge)
  {
    var size := F.HEADER_SIZE + 2 + |tag| + |value|;
    if size > F.MAX_PACKET_SIZE {
      return Err(FieldTooLarge);
    }
    var packet: Bytes := F.PacketHeader(size);
    packet := packet + tag;
    packet := packet + [F.SPACE];
    packet := packet + value;
    packet := packet + [F.NEWLINE];
    assert packet == F.EncodePacket(F.Packet(tag, value));
    return Ok(packet);
  }

  method Write(tag: Bytes, value: Bytes, serialized: Buffer, ghost done: seq<F.Packet>) returns (r: Result<()>)
    requires F.Written(done, serialized.bytes)
    modifies serialized
    ensures r == if F.Fits(F.Packet(tag, value)) then Ok(()) else Err(FieldTooLarge)
    ensures r.Ok? ==> F.Written(done + [F.Packet(tag, value)], serialized.bytes)
  {
    var packet :- SerializeAsPacket(tag, value);
    ghost var one := [F.Packet(tag, value)];
    assert one[1..] == [] && F.EncodeAll(one) == packet + [];
    F.WrittenConcat(done, serialized.bytes, one, packet);
    serialized.Extend(packet);
    return Ok(());
  }

  method WriteCaveat(caveat: Caveat, serialized: Buffer, ghost done: seq<F.Packet>) returns (r: Result<()>)
    requires F.Written(done, serialized.bytes)
    modifies serialized
    ensures r == if F.AllFit(F.PartsPackets(Disassemble(caveat))) then Ok(()) else Err(FieldTooLarge)
    ensures r.Ok? ==> F.Written(done + F.PartsPackets(Disassemble(caveat)), serialized.bytes)
  {
    T.CaveatFitsExact(caveat);
    match caveat {
      case FirstParty(pred) =>
        var _ :- Write(F.CID, pred, serialized, done);
        assert F.PartsPackets(Disassemble(caveat)) == [F.Packet(F.CID, pred)];
      case ThirdParty(id, vid, location) =>
        ghost var p1, p2, p3 := F.Packet(F.CID, id), F.Packet(F.VID, vid), F.Packet(F.CL, location);
        var _ :- Write(F.CID, id, serialized, done);
        var _ :- Write(F.VID, vid, serialized, done + [p1]);
        var _ :- Write(F.CL, location, serialized, done + [p1] + [p2]);
        assert done + F.PartsPackets(Disassemble(caveat)) == done + [p1] + [p2] + [p3];
    }
    return Ok(());
  }

  method WriteCaveats(cs: seq<Caveat>, serialized: Buffer, ghost done: seq<F.Packet>) returns (r: Result<()>)
    requires F.Written(done, serialized.bytes)
    modifies serialized
    ensures r == if F.AllFit(F.CaveatPackets(cs)) then Ok(()) else Err(FieldTooLarge)
    ensures r.Ok? ==> F.Written(done + F.CaveatPackets(cs), serialized.bytes)
  {
    ghost var written := done;
    var i := 0;
    while i < |cs|
      invariant 0 <= i <= |cs|
      invariant F.Written(written, serialized.bytes)
      invariant written + F.CaveatPackets(cs[i..]) == done + F.CaveatPackets(cs)
      invariant F.AllFit(F.CaveatPackets(cs)) <==> F.AllFit(F.CaveatPackets(cs[i..]))
    {
      ghost var mine, rest := F.PartsPackets(Disassemble(cs[i])), F.CaveatPackets(cs[i + 1..]);
      assert cs[i..][1..] == cs[i + 1..];
      T.AllConcat(mine, rest);
      Assoc(written, mine, rest);
      var _ :- WriteCaveat(cs[i], serialized, written);
      written := written + mine;
      i := i + 1;
    }
    assert F.CaveatPackets(cs[i..]) == [];
    assert written == done + F.CaveatPackets(cs);
    return Ok(());
  }

  method WriteHeader(m: Macaroon<Key>, serialized: Buffer) returns (r: Result<()>)
    requires F.Written([], serialized.bytes)
    modifies serialized
    ensures r == if F.AllFit(Header(m)) then Ok(()) else Err(FieldTooLarge)
    ensures r.Ok? ==> F.Written(Header(m), serialized.bytes)
  {
    ghost var first, second := F.Optional(F.LOCATION, m.location), F.Optional(F.IDENTIFIER, Some(m.identifier));
    T.AllConcat(first, second);
    T.OptionalFits(F.LOCATION, m.location);
    T.OptionalFits(F.IDENTIFIER, Some(m.identifier));
    if m.location.Some? {
      var _ :- Write(F.LOCATION, m.location.value, serialized, []);
      assert [] + [F.Packet(F.LOCATION, m.location.value)] == first;
    }
    r := Write(F.IDENTIFIER, m.identifier, serialized, first);
  }

  ghost function Header(m: Macaroon<Key>): seq<F.Packet> {
    F.Optional(F.LOCATION, m.location) + [F.Packet(F.IDENTIFIER, m.identifier)]
  }

  method SerializeBinary(m: Macaroon<Key>) returns (r: Result<Bytes>)
    ensures r == F.Serialize(m)
  {
    ghost var caveats, sig := F.CaveatPackets(m.caveats), [F.Packet(F.SIGNATURE, m.signature)];
    T.AllConcat(Header(m) + caveats, sig);
    T.AllConcat(Header(m), caveats);
    var serialized := new Buffer([]);
    var _ :- WriteHeader(m, serialized);
    var _ :- WriteCaveats(m.caveats, serialized, Header(m));
    var last := Write(F.SIGNATURE, m.signature, serialized, Header(m) + caveats);
    return if last.Ok? then Ok(serialized.bytes) else Err(FieldTooLarge);
  }

  method ReadPacket(remaining: Bytes) returns (r: Result<(F.Packet, Bytes)>)
    ensures r == F.GetPacket(remaining)
  {
    if |remaining| < F.HEADER_SIZE {
      return Err(DeserializationError);
    }
    var hex :- FromUtf8(remaining[..F.HEADER_SIZE]);
    var size :- F.FromRadix16(hex);
    if size > |remaining| {
      return Err(DeserializationError);
    }
    if size <= F.HEADER_SIZE {
      return Err(DeserializationError);
    }
    var packetData := remaining[F.HEADER_SIZE..size];
    var index :- F.SplitIndex(packetData);
    var keySlice, valueSlice := packetData[..index], packetData[index..];
    if |valueSlice| < 2 {
      return Err(DeserializationError);
    }
    var _ :- CheckFieldSize(|valueSlice| - 2);
    var key :- FromUtf8(keySlice);
    return Ok((F.Packet(key, valueSlice[1..|valueSlice| - 1]), remaining[size..]));
  }

  method DeserializeAsPackets(data: Bytes) returns (r: Result<seq<F.Packet>>)
    ensures r == F.GetPackets(data)
  {
    var packets: seq<F.Packet> := [];
    var remaining := data;
    if F.GetPackets(data).Ok? {
      assert packets + F.GetPackets(data).value == F.GetPackets(data).value;
    }
    while remaining != []
      invariant match F.GetPackets(remaining)
                case Ok(ps) => F.GetPackets(data) == Ok(packets + ps)
                case Err(e) => F.GetPackets(data) == Err(e)
      decreases |remaining|
    {
      var read :- ReadPacket(remaining);
      var (packet, rest) := read;
      if F.GetPackets(rest).Ok? {
        Assoc(packets, [packet], F.GetPackets(rest).value);
      }
      packets := packets + [packet];
      remaining := rest;
    }
    assert packets + [] == packets;
    return Ok(packets);
  }

  /** Adds the pending caveat to the macaroon and starts a new one, if the pending one has an identifier. */
  method FlushCaveat(builder: MacaroonBuilder, pending: CaveatBuilder, ghost st: F.State)
    returns (r: Result<CaveatBuilder>)
    requires st.draft == builder.Value() && st.parts == pending.Value()
    modifies builder
    ensures r.Ok? ==> r.value == pending || fresh(r.value)
    ensures match F.Flush(st)
            case Ok(next) => r.Ok? && next == st.(draft := builder.Value(), parts := r.value.Value())
            case Err(e) => r == Err(e)
  {
    if pending.HasId() {
      var caveat :- pending.Build();
      var _ :- builder.AddCaveat(caveat);
      var next := new CaveatBuilder();
      return Ok(next);
    }
    return Ok(pending);
  }

  /** Reads a packet of a caveat other than its identifier. */
  method ReadPart(packet: F.Packet, pending: CaveatBuilder, ghost st: F.State) returns (r: Result<()>)
    requires packet.key == F.VID || packet.key == F.CL
    requires !st.seenSignature && st.parts == pending.Value()
    modifies pending
    ensures match F.Step(st, packet)
            case Ok(next) => r.Ok? && next == st.(parts := pending.Value())
            case Err(e) => r == Err(e)
  {
    if packet.key == F.VID {
      if pending.HasVerifierId() {
        return Err(DeserializationError);
      }
      pending.AddVerifierId(packet.value);
    } else {
      if pending.HasLocation() {
        return Err(DeserializationError);
      }
      var location :- FromUtf8(packet.value);
      pending.AddLocation(location);
    }
    return Ok(());
  }

  /** Reads a packet that completes the pending caveat, if there is one. */
  method ReadBoundary(packet: F.Packet, builder: MacaroonBuilder, pending: CaveatBuilder, ghost st: F.State)
    returns (r: Result<CaveatBuilder>)
    requires packet.key == F.SIGNATURE || packet.key == F.CID
    requires !st.seenSignature && st.draft == builder.Value() && st.parts == pending.Value()
    modifies builder, pending
    ensures r.Ok? ==> r.value == pending || fresh(r.value)
    ensures match F.Step(st, packet)
            case Ok(next) =>
              && r.Ok?
              && next == st.(draft := builder.Value(), parts := r.value.Value(),
                             seenSignature := packet.key == F.SIGNATURE)
            case Err(e) => r == Err(e)
  {
    var flushed :- FlushCaveat(builder, pending, st);
    if packet.key == F.SIGNATURE {
      if |packet.value| != 32 {
        return Err(DeserializationError);
      }
      builder.SetSignature(packet.value);
    } else {
      flushed.AddId(packet.value);
    }
    return Ok(flushed);
  }

  /** Reads a location or an identifier; `seen` tells whether there was one before. */
  method ReadHeader(packet: F.Packet, builder: MacaroonBuilder, seen: bool, ghost st: F.State) returns (r: Result<()>)
    requires packet.key == F.LOCATION || packet.key == F.IDENTIFIER
    requires !st.seenSignature && st.draft == builder.Value()
    requires seen == if packet.key == F.LOCATION then st.seenLocation else st.seenIdentifier
    modifies builder
    ensures match F.Step(st, packet)
            case Ok(next) =>
              && r.Ok?
              && next == st.(draft := builder.Value(), seenLocation := st.seenLocation || packet.key == F.LOCATION,
                             seenIdentifier := st.seenIdentifier || packet.key == F.IDENTIFIER)
            case Err(e) => r == Err(e)
  {
    if seen {
      return Err(DeserializationError);
    }
    if packet.key == F.LOCATION {
      var location :- FromUtf8(packet.value);
      builder.SetLocation(location);
    } else {
      builder.SetIdentifier(packet.value);
    }
    return Ok(());
  }

  /** The packets of which there may be one, as far as they were seen. */
  datatype Seen = Seen(location: bool, identifier: bool, signature: bool)

  ghost function Progress(draft: Draft, parts: Parts, seen: Seen): F.State {
    F.State(draft, parts, seen.location, seen.identifier, seen.signature)
  }

  /** Reads one packet; `now` is what has been seen after it. */
  method TakePacket(packet: F.Packet, builder: MacaroonBuilder, pending: CaveatBuilder, seen: Seen)
    returns (r: Result<CaveatBuilder>, now: Seen)
    modifies builder, pending
    ensures r.Ok? ==> r.value == pending || fresh(r.value)
    ensures match F.Step(old(Progress(builder.Value(), pending.Value(), seen)), packet)
            case Ok(next) => r.Ok? && next == Progress(builder.Value(), r.value.Value(), now)
            case Err(e) => r == Err(e)
  {
    ghost var st := Progress(builder.Value(), pending.Value(), seen);
    now := seen;
    if seen.signature {
      return Err(DeserializationError), now;
    }
    if packet.key == F.LOCATION {
      var _ :- ReadHeader(packet, builder, seen.location, st);
      now := seen.(location := true);
    } else if packet.key == F.IDENTIFIER {
      var _ :- ReadHeader(packet, builder, seen.identifier, st);
      now := seen.(identifier := true);
    } else if packet.key == F.SIGNATURE || packet.key == F.CID {
      r := ReadBoundary(packet, builder, pending, st);
      now := seen.(signature := packet.key == F.SIGNATURE);
      return r, now;
    } else if packet.key == F.VID || packet.key == F.CL {
      var _ :- ReadPart(packet, pending, st);
    } else {
      return Err(DeserializationError), now;
    }
    return Ok(pending), now;
  }

  method Deserialize(data: Bytes) returns (r: Result<Macaroon<Key>>)
    ensures r == F.Parse(data)
  {
    var builder := new MacaroonBuilder();
    var pending := new CaveatBuilder();
    var seen := Seen(false, false, false);
    var packets :- DeserializeAsPackets(data);
    var i := 0;
    while i < |packets|
      invariant 0 <= i <= |packets|
      invariant fresh(builder) && fresh(pending)
      invariant F.Run(Progress(builder.Value(), pending.Value(), seen), packets[i..]) == F.Run(F.START, packets)
    {
      assert packets[i..][0] == packets[i] && packets[i..][1..] == packets[i + 1..];
      var next;
      next, seen := TakePacket(packets[i], builder, pending, seen);
      pending :- next;
      i := i + 1;
    }
    r := builder.Build();
  }
}
