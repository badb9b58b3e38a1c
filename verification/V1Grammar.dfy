/** The grammar of V1 packets: which packets are read as which macaroon, and when they stand in written order. */
module V1Grammar {
  import opened Prelude
  import opened Caveats
  import opened Macaroons
  import opened MacaroonBuilders
  import opened V1Format

  // ----------------------------------------------------------- grammar

  predicate OfCaveat(key: Bytes) {
    key == CID || key == VID || key == CL
  }

  predicate Known(key: Bytes) {
    key == LOCATION || key == IDENTIFIER || key == SIGNATURE || OfCaveat(key)
  }

  /** The packets with the given key. */
  function WithKey(ps: seq<Packet>, key: Bytes): seq<Packet> {
    if ps == [] then []
    else
      var n := |ps| - 1;
      WithKey(ps[..n], key) + if ps[n].key == key then [ps[n]] else []
  }

  /** The packets that belong to caveats. */
  function OfCaveats(ps: seq<Packet>): seq<Packet> {
    if ps == [] then []
    else
      var n := |ps| - 1;
      OfCaveats(ps[..n]) + if OfCaveat(ps[n].key) then [ps[n]] else []
  }

  /** The packets of the given fields, in any order. */
  ghost predicate Shuffled(ps: seq<Packet>, parts: Parts) {
    multiset(ps) == multiset(PartsPackets(parts))
  }

  /**
   The packets of the caveats `cs`, one caveat after the other, and then those of one more with the given fields.
   The packets of every caveat but the first start with its identifier; apart from that their order is free.
   */
  ghost predicate InGroups(ps: seq<Packet>, cs: seq<Caveat>, parts: Parts)
    decreases |cs|
  {
    if cs == [] then Shuffled(ps, parts)
    else exists before, group :: ps == before + group && LastGroup(before, group, cs, parts)
  }

  ghost predicate LastGroup(before: seq<Packet>, group: seq<Packet>, cs: seq<Caveat>, parts: Parts)
    requires cs != []
    decreases |cs|, 0
  {
    && group != [] && group[0].key == CID
    && Shuffled(group, parts)
    && InGroups(before, cs[..|cs| - 1], Disassemble(cs[|cs| - 1]))
  }

  /** Packets of a caveat that never got an identifier: at most one verifier id and one location. */
  ghost predicate Stray(strays: seq<Packet>) {
    exists parts: Parts :: parts.id.None? && Shuffled(strays, parts)
  }

  /** The packets of all caveats; without any caveat, strays. */
  ghost predicate SpellsCaveats(ps: seq<Packet>, cs: seq<Caveat>) {
    if cs == [] then Stray(ps) else InGroups(ps, cs[..|cs| - 1], Disassemble(cs[|cs| - 1]))
  }

  /**
   What the packets of a token say. The signature is the last packet; there is one identifier and at most one
   location, each anywhere before it; and the other packets, cut before every caveat identifier but the first,
   are those of the caveats one after the other. Without any caveat identifier they are strays.
   */
  ghost predicate Spells(ps: seq<Packet>, m: Macaroon<Key>) {
    && m.identifier != [] && |m.caveats| <= MAX_CAVEATS
    && ps != [] && ps[|ps| - 1] == Packet(SIGNATURE, m.signature)
    && SpellsBody(ps[..|ps| - 1], m)
  }

  ghost predicate SpellsBody(ps: seq<Packet>, m: Macaroon<Key>) {
    && Unsigned(ps)
    && WithKey(ps, LOCATION) == Optional(LOCATION, m.location)
    && WithKey(ps, IDENTIFIER) == [Packet(IDENTIFIER, m.identifier)]
    && SpellsCaveats(OfCaveats(ps), m.caveats)
  }

  ghost predicate Unsigned(ps: seq<Packet>) {
    forall i :: 0 <= i < |ps| ==> Known(ps[i].key) && ps[i].key != SIGNATURE
  }

  // ------------------------------------------- fields and their packets

  predicate Has(parts: Parts, key: Bytes) {
    (key == CID && parts.id.Some?) || (key == VID && parts.verifierId.Some?) || (key == CL && parts.location.Some?)
  }

  /** A packet that can become a field of a caveat. */
  predicate Usable(p: Packet) {
    OfCaveat(p.key) && (p.key == CL ==> ValidUtf8(p.value))
  }

  function Put(parts: Parts, p: Packet): Parts
    requires Usable(p)
  {
    if p.key == CID then parts.(id := Some(p.value))
    else if p.key == VID then parts.(verifierId := Some(p.value))
    else parts.(location := Some(p.value))
  }

  lemma PartsBag(parts: Parts)
    ensures multiset(PartsPackets(parts)) ==
              multiset(Optional(CID, parts.id)) + multiset(Optional(VID, parts.verifierId))
              + multiset(Optional(CL, parts.location))
  {
  }

  lemma PutBag(parts: Parts, p: Packet)
    requires Usable(p) && !Has(parts, p.key)
    ensures multiset(PartsPackets(Put(parts, p))) == multiset(PartsPackets(parts)) + multiset{p}
  {
    PartsBag(parts);
    PartsBag(Put(parts, p));
    assert p == Packet(p.key, p.value);
  }

  function Drop(parts: Parts, key: Bytes): Parts {
    if key == CID then parts.(id := None)
    else if key == VID then parts.(verifierId := None)
    else parts.(location := None)
  }

  lemma PutBack(parts: Parts, p: Packet)
    requires p in PartsPackets(parts)
    ensures Usable(p) && Has(parts, p.key) && !Has(Drop(parts, p.key), p.key) && Put(Drop(parts, p.key), p) == parts
  {
    var a, b, c := Optional(CID, parts.id), Optional(VID, parts.verifierId), Optional(CL, parts.location);
    assert p in a || p in b || p in c;
  }

  lemma LastIn(ps: seq<Packet>, p: Packet)
    ensures p in multiset(ps + [p]) && multiset(ps) == multiset(ps + [p]) - multiset{p}
  {
    assert multiset(ps + [p]) == multiset(ps) + multiset{p};
  }

  /** The last of some shuffled packets is a field of its own; the others are those of the other fields. */
  lemma TakeLast(ps: seq<Packet>, p: Packet, parts: Parts)
    requires Shuffled(ps + [p], parts)
    ensures Usable(p) && !Has(Drop(parts, p.key), p.key) && parts == Put(Drop(parts, p.key), p)
    ensures Shuffled(ps, Drop(parts, p.key))
  {
    LastIn(ps, p);
    assert p in multiset(PartsPackets(parts));
    PutBack(parts, p);
    PutBag(Drop(parts, p.key), p);
  }

  lemma Held(ps: seq<Packet>, parts: Parts, p: Packet)
    requires Shuffled(ps, parts) && p in ps
    ensures Has(parts, p.key)
  {
    assert p in multiset(PartsPackets(parts));
    PutBack(parts, p);
  }

  // ---------------------------------------------- packets of caveats

  lemma Alone(p: Packet)
    requires Usable(p)
    ensures Shuffled([p], Put(NO_PARTS, p))
  {
    assert [] + [p] == [p];
    PutBag(NO_PARTS, p);
  }

  lemma OnlyField(p: Packet, parts: Parts)
    requires Shuffled([p], parts)
    ensures Usable(p) && parts == Put(NO_PARTS, p)
  {
    assert [] + [p] == [p];
    TakeLast([], p, parts);
    assert PartsPackets(Drop(parts, p.key)) == [];
  }

  lemma GroupsAre(before: seq<Packet>, group: seq<Packet>, cs: seq<Caveat>, parts: Parts)
    requires cs != [] && LastGroup(before, group, cs, parts)
    ensures InGroups(before + group, cs, parts)
  {
  }

  /** A caveat identifier that starts a new caveat. */
  lemma CidFlushes(ps: seq<Packet>, cs: seq<Caveat>, p: Packet, caveat: Caveat)
    requires InGroups(ps, cs, Disassemble(caveat)) && p.key == CID
    ensures InGroups(ps + [p], cs + [caveat], Put(NO_PARTS, p))
  {
    var longer := cs + [caveat];
    assert longer[..|longer| - 1] == cs && longer[|longer| - 1] == caveat;
    Alone(p);
    GroupsAre(ps, [p], longer, Put(NO_PARTS, p));
  }

  lemma ShuffledSnoc(ps: seq<Packet>, parts: Parts, p: Packet)
    requires Shuffled(ps, parts) && Usable(p) && !Has(parts, p.key)
    ensures Shuffled(ps + [p], Put(parts, p))
  {
    PutBag(parts, p);
  }

  /** A packet that joins the pending caveat. */
  lemma PacketJoins(ps: seq<Packet>, cs: seq<Caveat>, parts: Parts, p: Packet)
    requires InGroups(ps, cs, parts) && Usable(p) && !Has(parts, p.key)
    ensures InGroups(ps + [p], cs, Put(parts, p))
  {
    if cs == [] {
      ShuffledSnoc(ps, parts, p);
    } else {
      var before, group :| ps == before + group && LastGroup(before, group, cs, parts);
      ShuffledSnoc(group, parts, p);
      Assoc(before, group, [p]);
      GroupsAre(before, group + [p], cs, Put(parts, p));
    }
  }

  lemma PendingIdentifier(ps: seq<Packet>, cs: seq<Caveat>, parts: Parts)
    requires InGroups(ps, cs, parts) && cs != []
    ensures ps != [] && parts.id.Some?
  {
    var before, group :| ps == before + group && LastGroup(before, group, cs, parts);
    Held(group, parts, group[0]);
  }

  lemma SnocSplit<T>(a: seq<T>, b: seq<T>, s: seq<T>, x: T)
    requires s + [x] == a + b && b != []
    ensures s == a + b[..|b| - 1] && b == b[..|b| - 1] + [x]
  {
    assert (s + [x])[|s|] == (a + b)[|s|];
    assert s == (a + b)[..|s|];
  }

  lemma LastOfGroup(before: seq<Packet>, others: seq<Packet>, p: Packet, cs: seq<Caveat>, parts: Parts)
    requires cs != [] && LastGroup(before, others + [p], cs, parts)
    ensures Usable(p) && !Has(Drop(parts, p.key), p.key) && parts == Put(Drop(parts, p.key), p)
    ensures
      || InGroups(before + others, cs, Drop(parts, p.key))
      || (others == [] && p.key == CID && parts == Put(NO_PARTS, p))
  {
    TakeLast(others, p, parts);
    if others == [] {
      assert others + [p] == [p];
      OnlyField(p, parts);
    } else {
      assert (others + [p])[0] == others[0];
      GroupsAre(before, others, cs, Drop(parts, p.key));
    }
  }

  /** How the last packet got there: it joined the pending caveat, or started a new one. */
  lemma LastPacket(ps: seq<Packet>, p: Packet, cs: seq<Caveat>, parts: Parts)
    requires InGroups(ps + [p], cs, parts)
    ensures Usable(p) && !Has(Drop(parts, p.key), p.key) && parts == Put(Drop(parts, p.key), p)
    ensures
      || InGroups(ps, cs, Drop(parts, p.key))
      || (cs != [] && p.key == CID && parts == Put(NO_PARTS, p) && SpellsCaveats(ps, cs))
  {
    if cs == [] {
      TakeLast(ps, p, parts);
    } else {
      var before, group :| ps + [p] == before + group && LastGroup(before, group, cs, parts);
      SnocSplit(before, group, ps, p);
      LastOfGroup(before, group[..|group| - 1], p, cs, parts);
      assert before + [] == before;
    }
  }

  // ------------------------------------------------ the state machine

  lemma {:induction false} RunSnoc(st: State, ps: seq<Packet>, p: Packet)
    ensures Run(st, ps + [p]) == match Run(st, ps) case Ok(mid) => Step(mid, p) case Err(e) => Err(e)
    decreases |ps|
  {
    var all := ps + [p];
    if ps == [] {
      assert all[1..] == [];
      assert Step(st, p).Ok? ==> Run(Step(st, p).value, all[1..]) == Ok(Step(st, p).value);
    } else {
      assert all[1..] == ps[1..] + [p];
      if Step(st, ps[0]).Ok? {
        RunSnoc(Step(st, ps[0]).value, ps[1..], p);
      }
    }
  }

  /** The state after reading `ps`, described by the packets alone. */
  ghost predicate Reads(ps: seq<Packet>, st: State) {
    && Unsigned(ps)
    && !st.seenSignature && st.draft.signature == None
    && ReadsHeader(ps, st)
    && |st.draft.caveats| <= MAX_CAVEATS
    && InGroups(OfCaveats(ps), st.draft.caveats, st.parts)
  }

  ghost predicate ReadsHeader(ps: seq<Packet>, st: State) {
    && WithKey(ps, LOCATION) == Optional(LOCATION, st.draft.location)
    && st.seenLocation == st.draft.location.Some?
    && WithKey(ps, IDENTIFIER) == (if st.seenIdentifier then [Packet(IDENTIFIER, st.draft.identifier)] else [])
    && (!st.seenIdentifier ==> st.draft.identifier == [])
  }

  lemma WithKeySnoc(ps: seq<Packet>, p: Packet, key: Bytes)
    ensures WithKey(ps + [p], key) == WithKey(ps, key) + if p.key == key then [p] else []
  {
    assert (ps + [p])[..|ps|] == ps;
  }

  lemma OfCaveatsSnoc(ps: seq<Packet>, p: Packet)
    ensures OfCaveats(ps + [p]) == if OfCaveat(p.key) then OfCaveats(ps) + [p] else OfCaveats(ps)
  {
    assert (ps + [p])[..|ps|] == ps;
  }

  lemma UnsignedSnoc(ps: seq<Packet>, p: Packet)
    ensures Unsigned(ps + [p]) <==> Unsigned(ps) && Known(p.key) && p.key != SIGNATURE
  {
    var all := ps + [p];
    assert all[|ps|] == p && forall i :: 0 <= i < |ps| ==> ps[i] == all[i];
  }

  /** Packets of caveats do not touch the header. */
  lemma HeaderKept(ps: seq<Packet>, p: Packet, st: State, next: State)
    requires OfCaveat(p.key)
    requires next.seenLocation == st.seenLocation && next.seenIdentifier == st.seenIdentifier
    requires next.draft.location == st.draft.location && next.draft.identifier == st.draft.identifier
    ensures ReadsHeader(ps, st) <==> ReadsHeader(ps + [p], next)
  {
    WithKeySnoc(ps, p, LOCATION);
    WithKeySnoc(ps, p, IDENTIFIER);
  }

  lemma NoneRead(st: State)
    ensures Reads([], st) <==> st == START
  {
    if Reads([], st) {
      if st.draft.caveats != [] {
        PendingIdentifier([], st.draft.caveats, st.parts);
      }
      assert Shuffled([], st.parts);
      assert PartsPackets(st.parts) == [];
      PartsBag(st.parts);
    }
    assert Shuffled([], NO_PARTS);
  }

  lemma JoinStep(st: State, p: Packet)
    requires !st.seenSignature && Usable(p) && !Has(st.parts, p.key)
    ensures Step(st, p) == Ok(st.(parts := Put(st.parts, p)))
  {
  }

  lemma FlushStep(st: State, p: Packet, caveat: Caveat)
    requires !st.seenSignature && p.key == CID && st.parts == Disassemble(caveat) && |st.draft.caveats| < MAX_CAVEATS
    ensures Step(st, p) ==
              Ok(st.(draft := st.draft.(caveats := st.draft.caveats + [caveat]), parts := Put(NO_PARTS, p)))
  {
    AssembleExact(st.parts, caveat);
  }

  /** The two ways in which a packet of a caveat is accepted. */
  lemma CaveatStepCases(st: State, p: Packet)
    requires Step(st, p).Ok? && OfCaveat(p.key)
    ensures Usable(p) && !st.seenSignature
    ensures Has(st.parts, p.key) ==>
              p.key == CID && |st.draft.caveats| < MAX_CAVEATS && exists caveat :: st.parts == Disassemble(caveat)
  {
    if p.key == CID && st.parts.id.Some? {
      AssembleExact(st.parts, Assemble(st.parts).value);
    }
  }

  lemma CaveatStep(ps: seq<Packet>, st: State, p: Packet, next: State)
    requires Reads(ps, st) && Step(st, p) == Ok(next) && OfCaveat(p.key)
    ensures Reads(ps + [p], next)
  {
    UnsignedSnoc(ps, p);
    OfCaveatsSnoc(ps, p);
    CaveatStepCases(st, p);
    if Has(st.parts, p.key) {
      var caveat :| st.parts == Disassemble(caveat);
      FlushStep(st, p, caveat);
      CidFlushes(OfCaveats(ps), st.draft.caveats, p, caveat);
    } else {
      JoinStep(st, p);
      PacketJoins(OfCaveats(ps), st.draft.caveats, st.parts, p);
    }
    HeaderKept(ps, p, st, next);
  }

  lemma LocationRead(ps: seq<Packet>, st: State, p: Packet, next: State)
    requires p.key == LOCATION && ValidUtf8(p.value)
    requires !st.seenLocation && next == st.(seenLocation := true, draft := st.draft.(location := Some(p.value)))
    requires ReadsHeader(ps, st)
    ensures ReadsHeader(ps + [p], next)
  {
    WithKeySnoc(ps, p, LOCATION);
    WithKeySnoc(ps, p, IDENTIFIER);
    assert [p] == Optional(LOCATION, Some(p.value));
  }

  lemma IdentifierRead(ps: seq<Packet>, st: State, p: Packet, next: State)
    requires p.key == IDENTIFIER
    requires !st.seenIdentifier && next == st.(seenIdentifier := true, draft := st.draft.(identifier := p.value))
    requires ReadsHeader(ps, st)
    ensures ReadsHeader(ps + [p], next)
  {
    WithKeySnoc(ps, p, LOCATION);
    WithKeySnoc(ps, p, IDENTIFIER);
    assert p == Packet(IDENTIFIER, p.value);
  }

  lemma HeaderStep(ps: seq<Packet>, st: State, p: Packet, next: State)
    requires Reads(ps, st) && Step(st, p) == Ok(next) && (p.key == LOCATION || p.key == IDENTIFIER)
    ensures Reads(ps + [p], next)
  {
    UnsignedSnoc(ps, p);
    OfCaveatsSnoc(ps, p);
    if p.key == LOCATION {
      LocationRead(ps, st, p, next);
    } else {
      IdentifierRead(ps, st, p, next);
    }
  }

  /** The state in which `p` was read. */
  lemma CaveatStepBack(ps: seq<Packet>, p: Packet, next: State) returns (st: State)
    requires Reads(ps + [p], next) && OfCaveat(p.key)
    ensures Reads(ps, st) && Step(st, p) == Ok(next)
  {
    UnsignedSnoc(ps, p);
    OfCaveatsSnoc(ps, p);
    LastPacket(OfCaveats(ps), p, next.draft.caveats, next.parts);
    if InGroups(OfCaveats(ps), next.draft.caveats, Drop(next.parts, p.key)) {
      st := next.(parts := Drop(next.parts, p.key));
      JoinStep(st, p);
    } else {
      st := BeforeCid(next, p);
    }
    HeaderKept(ps, p, st, next);
  }

  lemma BeforeCid(next: State, p: Packet) returns (st: State)
    requires !next.seenSignature && next.draft.caveats != [] && |next.draft.caveats| <= MAX_CAVEATS
    requires p.key == CID && next.parts == Put(NO_PARTS, p)
    ensures Step(st, p) == Ok(next) && st == next.(parts := st.parts, draft := next.draft.(caveats := st.draft.caveats))
    ensures var n := |next.draft.caveats| - 1;
            st.draft.caveats == next.draft.caveats[..n] && st.parts == Disassemble(next.draft.caveats[n])
  {
    var cs := next.draft.caveats;
    var n := |cs| - 1;
    assert cs == cs[..n] + [cs[n]];
    st := next.(parts := Disassemble(cs[n]), draft := next.draft.(caveats := cs[..n]));
    FlushStep(st, p, cs[n]);
  }

  lemma LocationStepBack(ps: seq<Packet>, p: Packet, next: State) returns (st: State)
    requires Reads(ps + [p], next) && p.key == LOCATION
    ensures Reads(ps, st) && Step(st, p) == Ok(next)
  {
    UnsignedSnoc(ps, p);
    OfCaveatsSnoc(ps, p);
    WithKeySnoc(ps, p, LOCATION);
    WithKeySnoc(ps, p, IDENTIFIER);
    LastOfOne(WithKey(ps, LOCATION), p, LOCATION, next.draft.location);
    st := next.(seenLocation := false, draft := next.draft.(location := None));
  }

  lemma LastOfOne(ps: seq<Packet>, p: Packet, key: Bytes, value: Option<Bytes>)
    requires ps + [p] == Optional(key, value)
    ensures ps == [] && value == Some(p.value)
  {
    assert |ps + [p]| == 1 && (ps + [p])[|ps|] == p;
  }

  lemma IdentifierStepBack(ps: seq<Packet>, p: Packet, next: State) returns (st: State)
    requires Reads(ps + [p], next) && p.key == IDENTIFIER
    ensures Reads(ps, st) && Step(st, p) == Ok(next)
  {
    UnsignedSnoc(ps, p);
    OfCaveatsSnoc(ps, p);
    WithKeySnoc(ps, p, LOCATION);
    WithKeySnoc(ps, p, IDENTIFIER);
    LastOfOne(WithKey(ps, IDENTIFIER), p, IDENTIFIER, Some(next.draft.identifier));
    st := next.(seenIdentifier := false, draft := next.draft.(identifier := []));
  }

  lemma StepBack(ps: seq<Packet>, p: Packet, next: State) returns (st: State)
    requires Reads(ps + [p], next)
    ensures Reads(ps, st) && Step(st, p) == Ok(next)
  {
    UnsignedSnoc(ps, p);
    if p.key == LOCATION {
      st := LocationStepBack(ps, p, next);
    } else if p.key == IDENTIFIER {
      st := IdentifierStepBack(ps, p, next);
    } else {
      st := CaveatStepBack(ps, p, next);
    }
  }

  lemma StepForward(ps: seq<Packet>, st: State, p: Packet, next: State)
    requires Reads(ps, st) && Step(st, p) == Ok(next) && p.key != SIGNATURE
    ensures Reads(ps + [p], next)
  {
    if OfCaveat(p.key) {
      CaveatStep(ps, st, p, next);
    } else {
      HeaderStep(ps, st, p, next);
    }
  }

  lemma StepSigns(st: State, p: Packet)
    requires Step(st, p).Ok?
    ensures !st.seenSignature && (Step(st, p).value.seenSignature <==> p.key == SIGNATURE)
  {
  }

  /** A packet list leads to a state before the signature exactly when the state describes the list. */
  lemma {:induction false} RunExact(ps: seq<Packet>, st: State)
    ensures Run(START, ps) == Ok(st) && !st.seenSignature <==> Reads(ps, st)
    decreases |ps|
  {
    if ps == [] {
      NoneRead(st);
    } else {
      var n := |ps| - 1;
      var before, p := ps[..n], ps[n];
      assert ps == before + [p];
      RunSnoc(START, before, p);
      if Run(START, ps) == Ok(st) && !st.seenSignature {
        var mid := Run(START, before).value;
        StepSigns(mid, p);
        RunExact(before, mid);
        StepForward(before, mid, p, st);
      }
      if Reads(ps, st) {
        var mid := StepBack(before, p, st);
        RunExact(before, mid);
      }
    }
  }

  /** The macaroon that the signature completes: the pending caveat becomes the last one, unless there is none. */
  ghost predicate Completes(st: State, m: Macaroon<Key>) {
    && st.draft.identifier == m.identifier && st.draft.location == m.location
    && if m.caveats == [] then st.parts.id.None? && st.draft.caveats == []
       else
         var n := |m.caveats| - 1;
         st.parts == Disassemble(m.caveats[n]) && st.draft.caveats == m.caveats[..n]
  }

  lemma SignatureStep(st: State, p: Packet, m: Macaroon<Key>)
    requires p.key == SIGNATURE && !st.seenSignature
    requires st.parts.id.None? ==> st.draft.caveats == []
    ensures (match Step(st, p) case Ok(next) => Finish(next.draft) == Ok(m) case Err(_) => false) <==>
              && m.identifier != [] && (st.parts.id.Some? ==> |m.caveats| <= MAX_CAVEATS)
              && p.value == m.signature && Completes(st, m)
  {
    if st.parts.id.Some? {
      if Assemble(st.parts).Ok? {
        var caveat := Assemble(st.parts).value;
        AssembleExact(st.parts, caveat);
        var longer := st.draft.caveats + [caveat];
        assert longer[..|longer| - 1] == st.draft.caveats;
      }
      if m.caveats != [] {
        var n := |m.caveats| - 1;
        AssembleExact(st.parts, m.caveats[n]);
        assert m.caveats == m.caveats[..n] + [m.caveats[n]];
      }
    }
  }

  lemma BodySpelled(ps: seq<Packet>, st: State, m: Macaroon<Key>)
    requires Reads(ps, st) && Completes(st, m) && m.identifier != []
    ensures SpellsBody(ps, m)
  {
  }

  /** The state before the signature. */
  lemma BodyRead(ps: seq<Packet>, m: Macaroon<Key>) returns (st: State)
    requires SpellsBody(ps, m) && |m.caveats| <= MAX_CAVEATS
    ensures Reads(ps, st) && Completes(st, m) && (m.caveats == [] <==> st.parts.id.None?)
  {
    var n := |m.caveats| - 1;
    var parts: Parts;
    if m.caveats == [] {
      parts :| parts.id.None? && Shuffled(OfCaveats(ps), parts);
    } else {
      parts := Disassemble(m.caveats[n]);
    }
    st := State(Draft(m.identifier, m.location, None, if m.caveats == [] then [] else m.caveats[..n]),
                parts, m.location.Some?, true, false);
  }

  /** The packets before the signature, and the state they lead to. */
  lemma BeforeSignature(ps: seq<Packet>, m: Macaroon<Key>) returns (st: State)
    requires Interpret(ps) == Ok(m)
    ensures ps != [] && ps[|ps| - 1] == Packet(SIGNATURE, m.signature)
    ensures Run(START, ps[..|ps| - 1]) == Ok(st) && Reads(ps[..|ps| - 1], st) && Completes(st, m)
    ensures m.identifier != [] && |m.caveats| <= MAX_CAVEATS
  {
    var last := Run(START, ps).value;
    RunExact(ps, last);
    assert ps != [] by {
      assert Run(START, []) == Ok(START);
    }
    var n := |ps| - 1;
    var body, p := ps[..n], ps[n];
    assert ps == body + [p];
    RunSnoc(START, body, p);
    st := Run(START, body).value;
    StepSigns(st, p);
    RunExact(body, st);
    if st.draft.caveats != [] {
      PendingIdentifier(OfCaveats(body), st.draft.caveats, st.parts);
    }
    SignatureStep(st, p, m);
  }

  lemma InterpretSound(ps: seq<Packet>, m: Macaroon<Key>)
    requires Interpret(ps) == Ok(m)
    ensures Spells(ps, m)
  {
    var st := BeforeSignature(ps, m);
    BodySpelled(ps[..|ps| - 1], st, m);
  }

  lemma InterpretComplete(ps: seq<Packet>, m: Macaroon<Key>)
    requires Spells(ps, m)
    ensures Interpret(ps) == Ok(m)
  {
    var n := |ps| - 1;
    var body, p := ps[..n], ps[n];
    assert ps == body + [p];
    var st := BodyRead(body, m);
    RunExact(body, st);
    RunSnoc(START, body, p);
    SignatureStep(st, p, m);
  }

  /** The state machine reads some packets as a macaroon exactly when they spell it. */
  lemma InterpretExact(ps: seq<Packet>, m: Macaroon<Key>)
    ensures Interpret(ps) == Ok(m) <==> Spells(ps, m)
  {
    if Interpret(ps) == Ok(m) {
      InterpretSound(ps, m);
    }
    if Spells(ps, m) {
      InterpretComplete(ps, m);
    }
  }

  // ----------------------------------------------------- written order

  /** Which packet may come next in written order. */
  predicate MayFollow(before: Bytes, after: Bytes) {
    if before == LOCATION then after == IDENTIFIER
    else if before == VID then after == CL
    else
      || (after == VID && before == CID)
      || ((after == CID || after == SIGNATURE) && (before == IDENTIFIER || before == CID || before == CL))
  }

  ghost predicate Linked(ps: seq<Packet>) {
    forall i :: 0 < i < |ps| ==> MayFollow(ps[i - 1].key, ps[i].key)
  }

  /** Location and identifier come first, and the packets of every caveat in the order cid, vid, cl. */
  ghost predicate InOrder(ps: seq<Packet>) {
    && ps != [] && (ps[0].key == LOCATION || ps[0].key == IDENTIFIER)
    && Linked(ps)
  }

  /** The packets of a draft and its pending caveat, in written order. */
  ghost function Collected(st: State): seq<Packet> {
    Optional(LOCATION, st.draft.location)
    + Optional(IDENTIFIER, if st.seenIdentifier then Some(st.draft.identifier) else None)
    + CaveatPackets(st.draft.caveats) + PartsPackets(st.parts)
  }

  /** The state when packets were read in written order, the last of them with the given key. */
  ghost predicate AtKey(st: State, key: Bytes) {
    && !st.seenSignature
    && (st.seenIdentifier <==> key != LOCATION)
    && if key == LOCATION || key == IDENTIFIER then st.draft.caveats == [] && st.parts == NO_PARTS
       else
         && OfCaveat(key) && st.parts.id.Some?
         && (st.parts.verifierId.Some? <==> key != CID)
         && (st.parts.location.Some? <==> key == CL)
  }

  lemma {:induction false} CaveatPacketsSnoc(cs: seq<Caveat>, caveat: Caveat)
    ensures CaveatPackets(cs + [caveat]) == CaveatPackets(cs) + PartsPackets(Disassemble(caveat))
  {
    if cs == [] {
      assert (cs + [caveat])[1..] == [];
    } else {
      assert (cs + [caveat])[1..] == cs[1..] + [caveat];
      CaveatPacketsSnoc(cs[1..], caveat);
      Assoc(PartsPackets(Disassemble(cs[0])), CaveatPackets(cs[1..]), PartsPackets(Disassemble(caveat)));
    }
  }

  lemma CaveatPacketsInit(cs: seq<Caveat>)
    requires cs != []
    ensures var n := |cs| - 1; CaveatPackets(cs) == CaveatPackets(cs[..n]) + PartsPackets(Disassemble(cs[n]))
  {
    var n := |cs| - 1;
    assert cs == cs[..n] + [cs[n]];
    CaveatPacketsSnoc(cs[..n], cs[n]);
  }

  lemma OrderedStart(p: Packet, st: State)
    requires Step(START, p) == Ok(st) && (p.key == LOCATION || p.key == IDENTIFIER)
    ensures [p] == Collected(st) && AtKey(st, p.key)
  {
    assert p == Packet(p.key, p.value);
  }

  lemma OrderedIdentifier(st: State, p: Packet, next: State)
    requires Step(st, p) == Ok(next) && AtKey(st, LOCATION) && p.key == IDENTIFIER
    ensures Collected(st) + [p] == Collected(next) && AtKey(next, p.key)
  {
    assert p == Packet(p.key, p.value);
  }

  lemma OrderedCid(st: State, before: Bytes, p: Packet, next: State)
    requires Step(st, p) == Ok(next) && AtKey(st, before) && MayFollow(before, p.key) && p.key == CID
    ensures Collected(st) + [p] == Collected(next) && AtKey(next, p.key)
  {
    if st.parts.id.Some? {
      var caveat := Assemble(st.parts).value;
      AssembleExact(st.parts, caveat);
      FlushStep(st, p, caveat);
      CaveatPacketsSnoc(st.draft.caveats, caveat);
    }
    assert PartsPackets(next.parts) == [p];
  }

  lemma OrderedPart(st: State, before: Bytes, p: Packet, next: State)
    requires Step(st, p) == Ok(next) && AtKey(st, before) && MayFollow(before, p.key) && (p.key == VID || p.key == CL)
    ensures Collected(st) + [p] == Collected(next) && AtKey(next, p.key)
  {
    assert PartsPackets(next.parts) == PartsPackets(st.parts) + [p];
  }

  lemma OrderedStep(st: State, before: Bytes, p: Packet, next: State)
    requires Step(st, p) == Ok(next) && AtKey(st, before) && MayFollow(before, p.key) && p.key != SIGNATURE
    ensures Collected(st) + [p] == Collected(next) && AtKey(next, p.key)
  {
    if p.key == IDENTIFIER {
      OrderedIdentifier(st, p, next);
    } else if p.key == CID {
      OrderedCid(st, before, p, next);
    } else {
      OrderedPart(st, before, p, next);
    }
  }

  lemma InOrderInit(ps: seq<Packet>)
    requires InOrder(ps) && |ps| > 1
    ensures InOrder(ps[..|ps| - 1]) && MayFollow(ps[|ps| - 2].key, ps[|ps| - 1].key)
  {
  }

  /** Packets in written order are the packets of what was read from them. */
  lemma {:induction false} OrderedRun(ps: seq<Packet>, st: State)
    requires InOrder(ps) && Run(START, ps) == Ok(st) && !st.seenSignature
    ensures ps == Collected(st) && AtKey(st, ps[|ps| - 1].key)
    decreases |ps|
  {
    var n := |ps| - 1;
    var before, p := ps[..n], ps[n];
    assert ps == before + [p];
    RunSnoc(START, before, p);
    var mid := Run(START, before).value;
    StepSigns(mid, p);
    if n == 0 {
      OrderedStart(p, st);
    } else {
      InOrderInit(ps);
      OrderedRun(before, mid);
      OrderedStep(mid, before[n - 1].key, p, st);
    }
  }

  lemma LinkedConcat(a: seq<Packet>, b: seq<Packet>)
    requires Linked(a) && Linked(b) && (a != [] && b != [] ==> MayFollow(a[|a| - 1].key, b[0].key))
    ensures Linked(a + b)
  {
    var ab := a + b;
    forall i | 0 < i < |ab|
      ensures MayFollow(ab[i - 1].key, ab[i].key)
    {
      if i > |a| {
        assert ab[i - 1] == b[i - 1 - |a|] && ab[i] == b[i - |a|];
      }
    }
  }

  ghost predicate CaveatEnds(ps: seq<Packet>) {
    ps != [] && ps[0].key == CID && (ps[|ps| - 1].key == CID || ps[|ps| - 1].key == CL)
  }

  lemma PartsLinked(caveat: Caveat)
    ensures Linked(PartsPackets(Disassemble(caveat))) && CaveatEnds(PartsPackets(Disassemble(caveat)))
  {
    match caveat
    case FirstParty(pred) =>
      assert PartsPackets(Disassemble(caveat)) == [Packet(CID, pred)];
    case ThirdParty(id, vid, location) =>
      assert PartsPackets(Disassemble(caveat)) == [Packet(CID, id), Packet(VID, vid), Packet(CL, location)];
  }

  lemma {:induction false} CaveatsLinked(cs: seq<Caveat>)
    ensures Linked(CaveatPackets(cs)) && (cs != [] ==> CaveatEnds(CaveatPackets(cs)))
  {
    if cs != [] {
      var first, rest := PartsPackets(Disassemble(cs[0])), CaveatPackets(cs[1..]);
      PartsLinked(cs[0]);
      CaveatsLinked(cs[1..]);
      LinkedConcat(first, rest);
      EndsConcat(first, rest);
    }
  }

  lemma EndsConcat(a: seq<Packet>, b: seq<Packet>)
    requires CaveatEnds(a) && (b != [] ==> CaveatEnds(b))
    ensures CaveatEnds(a + b)
  {
    assert b == [] ==> a + b == a;
  }

  lemma WrittenInOrder(m: Macaroon<Key>)
    ensures InOrder(PacketsOf(m))
  {
    var header := Optional(LOCATION, m.location) + [Packet(IDENTIFIER, m.identifier)];
    var caveats, sig := CaveatPackets(m.caveats), [Packet(SIGNATURE, m.signature)];
    CaveatsLinked(m.caveats);
    LinkedConcat(header, caveats);
    LinkedConcat(header + caveats, sig);
    assert PacketsOf(m) == header + caveats + sig;
    assert PacketsOf(m)[0] == header[0];
  }

  lemma CollectedAll(st: State, key: Bytes, m: Macaroon<Key>)
    requires AtKey(st, key) && Completes(st, m) && st.seenIdentifier
    ensures Collected(st) + [Packet(SIGNATURE, m.signature)] == PacketsOf(m)
  {
    if m.caveats == [] {
      assert CaveatPackets(st.draft.caveats) + PartsPackets(st.parts) == [];
    } else {
      CaveatPacketsInit(m.caveats);
    }
  }

  lemma OrderedSpelling(body: seq<Packet>, p: Packet, st: State, m: Macaroon<Key>)
    requires InOrder(body + [p]) && p == Packet(SIGNATURE, m.signature)
    requires Run(START, body) == Ok(st) && !st.seenSignature && st.seenIdentifier && Completes(st, m)
    ensures body + [p] == PacketsOf(m)
  {
    var all := body + [p];
    assert all[|body|] == p && body != [];
    InOrderInit(all);
    assert all[..|body|] == body;
    OrderedRun(body, st);
    CollectedAll(st, body[|body| - 1].key, m);
  }

  /** Accepted packets are those that the writer writes exactly when they stand in written order. */
  lemma OrderExact(ps: seq<Packet>, m: Macaroon<Key>)
    requires Interpret(ps) == Ok(m)
    ensures InOrder(ps) <==> ps == PacketsOf(m)
  {
    WrittenInOrder(m);
    if InOrder(ps) {
      var st := BeforeSignature(ps, m);
      var n := |ps| - 1;
      assert ps == ps[..n] + [ps[n]];
      OrderedSpelling(ps[..n], ps[n], st, m);
    }
  }

  // --------------------------------------------- the packets of a macaroon

  lemma {:induction false} FiltersConcat(a: seq<Packet>, b: seq<Packet>, key: Bytes)
    ensures WithKey(a + b, key) == WithKey(a, key) + WithKey(b, key)
    ensures OfCaveats(a + b) == OfCaveats(a) + OfCaveats(b)
    decreases |b|
  {
    if b == [] {
      assert a + b == a;
    } else {
      var n := |b| - 1;
      assert a + b == a + b[..n] + [b[n]];
      FiltersConcat(a, b[..n], key);
      WithKeySnoc(a + b[..n], b[n], key);
      OfCaveatsSnoc(a + b[..n], b[n]);
      Assoc(WithKey(a, key), WithKey(b[..n], key), if b[n].key == key then [b[n]] else []);
      Assoc(OfCaveats(a), OfCaveats(b[..n]), if OfCaveat(b[n].key) then [b[n]] else []);
    }
  }

  ghost predicate AllOfCaveats(ps: seq<Packet>) {
    forall i :: 0 <= i < |ps| ==> OfCaveat(ps[i].key)
  }

  lemma {:induction false} FiltersOfCaveats(ps: seq<Packet>, key: Bytes)
    requires AllOfCaveats(ps) && !OfCaveat(key)
    ensures WithKey(ps, key) == [] && OfCaveats(ps) == ps
  {
    if ps != [] {
      FiltersOfCaveats(ps[..|ps| - 1], key);
    }
  }

  lemma {:induction false} CaveatPacketsKeys(cs: seq<Caveat>)
    ensures AllOfCaveats(CaveatPackets(cs))
  {
    if cs != [] {
      CaveatPacketsKeys(cs[1..]);
    }
  }

  lemma NoStrays()
    ensures Stray([])
  {
    assert Shuffled([], NO_PARTS);
  }

  lemma {:induction false} CaveatPacketsSpell(cs: seq<Caveat>)
    ensures SpellsCaveats(CaveatPackets(cs), cs)
    decreases |cs|
  {
    if cs == [] {
      NoStrays();
    } else {
      var n := |cs| - 1;
      var group := PartsPackets(Disassemble(cs[n]));
      CaveatPacketsInit(cs);
      if n > 0 {
        CaveatPacketsSpell(cs[..n]);
        GroupsAre(CaveatPackets(cs[..n]), group, cs[..n], Disassemble(cs[n]));
      }
    }
  }

  lemma UnsignedConcat(a: seq<Packet>, b: seq<Packet>)
    requires Unsigned(a) && AllOfCaveats(b)
    ensures Unsigned(a + b)
  {
    var ab := a + b;
    forall i | 0 <= i < |ab|
      ensures Known(ab[i].key) && ab[i].key != SIGNATURE
    {
      if i >= |a| {
        assert ab[i] == b[i - |a|];
      }
    }
  }

  lemma FiltersOne(p: Packet, key: Bytes)
    ensures WithKey([p], key) == if p.key == key then [p] else []
    ensures OfCaveats([p]) == if OfCaveat(p.key) then [p] else []
  {
    assert [] + [p] == [p];
    WithKeySnoc([], p, key);
    OfCaveatsSnoc([], p);
  }

  lemma FiltersOptional(location: Option<Bytes>)
    ensures var ps := Optional(LOCATION, location);
            Unsigned(ps) && OfCaveats(ps) == [] && WithKey(ps, LOCATION) == ps && WithKey(ps, IDENTIFIER) == []
  {
    if location.Some? {
      FiltersOne(Packet(LOCATION, location.value), LOCATION);
      FiltersOne(Packet(LOCATION, location.value), IDENTIFIER);
    }
  }

  /** The header that is written, and what is found in it. */
  lemma WrittenHeader(location: Option<Bytes>, identifier: Bytes)
    ensures var header := Optional(LOCATION, location) + [Packet(IDENTIFIER, identifier)];
            && Unsigned(header) && OfCaveats(header) == []
            && WithKey(header, LOCATION) == Optional(LOCATION, location)
            && WithKey(header, IDENTIFIER) == [Packet(IDENTIFIER, identifier)]
  {
    var first, id := Optional(LOCATION, location), Packet(IDENTIFIER, identifier);
    FiltersOptional(location);
    UnsignedSnoc(first, id);
    OfCaveatsSnoc(first, id);
    WithKeySnoc(first, id, LOCATION);
    WithKeySnoc(first, id, IDENTIFIER);
  }

  lemma WrittenBody(m: Macaroon<Key>)
    ensures var header := Optional(LOCATION, m.location) + [Packet(IDENTIFIER, m.identifier)];
            SpellsBody(header + CaveatPackets(m.caveats), m)
  {
    var header := Optional(LOCATION, m.location) + [Packet(IDENTIFIER, m.identifier)];
    var caveats := CaveatPackets(m.caveats);
    WrittenHeader(m.location, m.identifier);
    CaveatPacketsKeys(m.caveats);
    FiltersConcat(header, caveats, LOCATION);
    FiltersConcat(header, caveats, IDENTIFIER);
    FiltersOfCaveats(caveats, LOCATION);
    FiltersOfCaveats(caveats, IDENTIFIER);
    assert [] + caveats == caveats;
    UnsignedConcat(header, caveats);
    CaveatPacketsSpell(m.caveats);
  }

  /** The state machine reads back what is written. */
  lemma InterpretPackets(m: Macaroon<Key>)
    requires m.identifier != [] && |m.caveats| <= MAX_CAVEATS
    ensures Interpret(PacketsOf(m)) == Ok(m)
  {
    var ps := PacketsOf(m);
    WrittenBody(m);
    var header := Optional(LOCATION, m.location) + [Packet(IDENTIFIER, m.identifier)];
    assert ps[..|ps| - 1] == header + CaveatPackets(m.caveats);
    InterpretComplete(ps, m);
  }
}
