/** How tokens are refused: a failure to read is never reported as one of cryptography or verification. */
module Refusals {
  import opened Prelude
  import opened Caveats
  import opened Macaroons
  import opened MacaroonBuilders
  import Base64
  import FieldSizes
  import V1Format
  import V2Format
  import V2Json
  import opened Tokens

  /** The errors of reading. A macaroon with too many caveats is told apart from one that is malformed. */
  predicate Reading(e: Error) {
    || e == DeserializationError || e == FieldTooLarge || e == TooManyCaveats
    || e == IncompleteCaveat || e == IncompleteMacaroon
  }

  lemma {:induction false} DigitsRefusal(w: FieldSizes.Word, s: Bytes, shift: nat)
    ensures var r := FieldSizes.Digits(w, s, shift); r.Err? ==> r.error == DeserializationError
    decreases |s|
  {
    if shift <= w - 8 && s != [] && s[0] >= 128 {
      DigitsRefusal(w, s[1..], shift + 7);
    }
  }

  lemma FieldRefusal(w: FieldSizes.Word, s: Bytes)
    ensures var r := V2Format.GetField(w, s); r.Err? ==> r.error == DeserializationError || r.error == FieldTooLarge
  {
    DigitsRefusal(w, s, 0);
  }

  lemma NamesRefusal(w: FieldSizes.Word, tag: byte, s: Bytes)
    ensures var r := V2Format.GetNames(w, tag, s);
            r.Err? ==> r.error == DeserializationError || r.error == FieldTooLarge
  {
    FieldRefusal(w, s);
    var first := V2Format.GetField(w, s);
    if first.Ok? && first.value.1 != [] {
      FieldRefusal(w, first.value.1[1..]);
    }
  }

  lemma CaveatRefusal(w: FieldSizes.Word, tag: byte, s: Bytes, cs: seq<Caveat>)
    ensures var r := V2Format.GetCaveat(w, tag, s, cs);
            r.Err? ==> Reading(r.error) && (r.error == TooManyCaveats ==> |cs| >= 1000)
  {
    NamesRefusal(w, tag, s);
    var names := V2Format.GetNames(w, tag, s);
    if names.Ok? && names.value.2 != [] {
      FieldRefusal(w, names.value.2[1..]);
    }
  }

  lemma {:induction false} CaveatsRefusal(w: FieldSizes.Word, tag: byte, s: Bytes, cs: seq<Caveat>)
    ensures var r := V2Format.GetCaveats(w, tag, s, cs); r.Err? ==> Reading(r.error)
    decreases |s|
  {
    if tag != V2Format.EOS {
      CaveatRefusal(w, tag, s, cs);
      var r := V2Format.GetCaveat(w, tag, s, cs);
      if r.Ok? {
        CaveatsRefusal(w, r.value.1, r.value.2, r.value.0);
      }
    }
  }

  lemma V2Refusal(w: FieldSizes.Word, data: Bytes)
    ensures var r := V2Format.Parse(w, data); r.Err? ==> Reading(r.error)
  {
    if data != [] && data[1..] != [] {
      NamesRefusal(w, data[1..][0], data[1..][1..]);
    }
    var preamble := V2Format.GetPreamble(w, data);
    if preamble.Ok? && preamble.value.2 != [] {
      var s := preamble.value.2;
      CaveatsRefusal(w, s[0], s[1..], []);
      var caveats := V2Format.GetCaveats(w, s[0], s[1..], []);
      if caveats.Ok? && caveats.value.1 != [] {
        FieldRefusal(w, caveats.value.1[1..]);
      }
    }
  }

  lemma {:induction false} PacketsRefusal(s: Bytes)
    ensures var r := V1Format.GetPackets(s); r.Err? ==> Reading(r.error)
    decreases |s|
  {
    if s != [] && V1Format.GetPacket(s).Ok? {
      PacketsRefusal(V1Format.GetPacket(s).value.1);
    }
  }

  lemma {:induction false} RunRefusal(st: V1Format.State, ps: seq<V1Format.Packet>)
    ensures var r := V1Format.Run(st, ps); r.Err? ==> Reading(r.error)
    decreases |ps|
  {
    if ps != [] && V1Format.Step(st, ps[0]).Ok? {
      RunRefusal(V1Format.Step(st, ps[0]).value, ps[1..]);
    }
  }

  lemma V1Refusal(data: Bytes)
    ensures var r := V1Format.Parse(data); r.Err? ==> Reading(r.error)
  {
    PacketsRefusal(data);
    if V1Format.GetPackets(data).Ok? {
      RunRefusal(V1Format.START, V1Format.GetPackets(data).value);
    }
  }

  lemma {:induction false} AddRefusal(d: Draft, cs: seq<V2Json.JsonCaveat<Bytes>>)
    ensures var r := V2Json.AddCaveats(d, cs); r.Err? ==> Reading(r.error)
    decreases |cs|
  {
    if cs != [] && V2Json.CaveatOfJson(cs[0]).Ok? {
      var next := WithCaveat(d, V2Json.CaveatOfJson(cs[0]).value);
      if next.Ok? {
        AddRefusal(next.value, cs[1..]);
      }
    }
  }

  lemma {:induction false} TextRefusal(cs: seq<V2Json.JsonCaveat<Str>>)
    ensures var r := V2Json.CaveatsOfText(cs); r.Err? ==> r.error == DeserializationError
  {
    if cs != [] {
      TextRefusal(cs[1..]);
    }
  }

  lemma JsonRefusal(j: V2Json.Json<Str>)
    ensures var r := V2Json.Parse(j); r.Err? ==> Reading(r.error)
  {
    TextRefusal(j.c);
    if V2Json.OfText(j).Ok? {
      var k := V2Json.OfText(j).value;
      if V2Json.GetFields(k).Ok? {
        AddRefusal(V2Json.GetFields(k).value, k.c);
      }
    }
  }

  lemma BinaryRefusal(w: FieldSizes.Word, binary: Bytes)
    ensures var r := DeserializeBinary(w, binary); r.Err? ==> Reading(r.error)
  {
    V1Refusal(binary);
    V2Refusal(w, binary);
  }

  lemma Base64Refusal(w: FieldSizes.Word, token: Bytes)
    ensures var r := DeserializeBase64(w, token); r.Err? ==> Reading(r.error)
  {
    if Base64.DecodeFlexible(token).Ok? {
      BinaryRefusal(w, Base64.DecodeFlexible(token).value);
    }
  }

  lemma ObjectRefusal(serde: Serde, token: Bytes)
    ensures var r := DeserializeJson(serde, token); r.Err? ==> Reading(r.error)
  {
    if serde.read(token).Some? {
      JsonRefusal(serde.read(token).value);
    }
  }

  /** Whatever bytes are read as a token, the errors are those of reading. */
  lemma TokenRefusal(serde: Serde, w: FieldSizes.Word, token: Bytes)
    ensures var r := Deserialize(serde, w, token); r.Err? ==> Reading(r.error)
  {
    Base64Refusal(w, token);
    ObjectRefusal(serde, token);
  }
}
