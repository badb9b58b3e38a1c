# Macaroons: verification model

A Dafny model of the Rust crate `libmacaroon`: how macaroons are signed, attenuated, discharged and verified,
and how they are written and read in the three token formats. `dafny verify dfyconfig.toml` checks everything.

The proofs answer three questions.

**When does verification succeed?** `Verifier.Verify` runs depth first over a shared set of discharges that
shrinks as it goes. `VerdictExact` says what that amounts to without a run: there is a *discharge tree* in which
every first-party caveat is accepted, every third-party caveat is matched with a macaroon under the decrypted
key, every chain is the root signature or bound to it, the height is at most 32, and the discharges are used
exactly once each. From there: the order of discharges does not matter, more satisfiers only widen, every
discharge is named by exactly one caveat and none leads back to itself, macaroons built with the crate's own
calls verify exactly when they should, and one more first-party caveat only narrows.

**Do tokens mean what was written?** V2 is a bijection between accepted byte strings and macaroons within the
limits. V1 is not, but what it accepts is described by an exact grammar, as is which of the accepted tokens
are canonical; everything else has a normal form, and its packets are all accounted for. V2JSON loses exactly the
macaroons with an empty byte field. The first byte of a token selects the parser of the format it was written in, so any
chain of formats is lossless.

**What does a signature say about the caveats?** As long as the MACs that two chains take do not collide, the chains
agree exactly when the macaroons say the same, with one exception: a third-party caveat is signed like a first-party
caveat whose predicate is its two MACs, and this does occur (`KindsSignedAlike`). Without predicates of 64 bytes there is
no exception. Whoever holds macaroons but not the root key can add caveats and not remove them; `CaveatsOnlyAdded` has the
conditions under which this holds to the letter, `ContinuesHeld` what holds without them.

## How it is modelled

- `Prelude`, `Crypto`: bytes, UTF-8, results; the MAC and the cipher are parameters, so each theorem holds for every
  choice of them. The only law ever assumed is that decryption inverts encryption (and, for the size limits, that a ciphertext has 72 bytes). The nonce is an argument;
  `None` is a failing random number generator.
- Keys have a type parameter: 32 bytes in the formats and in `SignedBytes`, free terms in `Symbolic` and `Derivations`,
  where two different computations never give the same MAC. In both, the MAC of two texts is what
  `src/crypto/rustcrypto.rs:37-53` computes: the MAC of two joined MACs. In `SignedBytes` these are 64 plain bytes. In
  `Symbolic` a parameter `read` says which text a byte string is; it may be any injective function that reads only
  strings of 64 bytes as two joined MACs, so identifiers and predicates may hold MACs there too.
- `Caveats`, `Macaroons`, `MacaroonBuilders`: caveats and macaroons as values, and the classes that are changed in place.
- `Verification` is the verifier with its shared map; `DischargeTrees`, `VerdictTheorems`, `HonestPlans` are about it.
- `Outcomes` says when calls succeed and verification does, over the calls and their arguments alone. `Utf8`, `Base64Text`,
  `V1Text` and `V2JsonGrammar` likewise say what is read and written without the functions that read and write.
- `FieldSizes`, `V2Format`, `V2`, `V1Format`, `V1Grammar`, `V1Theorems`, `V1`, `V2Json`, `Base64`: for each format the parser and the
  serializer as functions with their theorems, and the methods with loops and mutable state proved equal to them.
- `Tokens` and `Reachable`: the entry points that sniff the format, and the limits that every reachable macaroon keeps.
- The JSON library is a pair of functions (`Serde`) that write and read a V2JSON object.
- Bitwise operations on sizes are arithmetic (`& 127` is a remainder, `>> 7` a quotient, `<<` a product); the bitwise
  or is `BitOr`, and `FitsWord` shows that it never overflows on 32-bit and 64-bit machines.

## Where the code and its documentation disagree

- `src/error.rs:38-41` says a macaroon that the crate serializes can always be parsed back. V2JSON does not parse back a
  macaroon with an empty predicate, caveat id or verifier id: `RoundTripExact`, with the instance `EmptyPredicateIsLost`.
- `src/serialization/v1.rs:145-147` wants one byte representation per token. A V1 token has many: header digits may be
  upper-case, a header may start with a plus sign, any byte may end a packet, location and identifier may stand anywhere
  before the signature, the fields of a caveat may be permuted (but every identifier after the first starts a new
  caveat), and a token without caveats may hold one stray verifier id and one stray location. `ParseExact` and `InterpretExact` allow exactly this much, `CanonicalExact` says which token
  is the written one, and `LastByteIgnored` gives a family of instances.

## Model

| member | source | states |
|---|---|---|
| Verification.Verifier.Verify | src/verifier.rs:22-47 | the answer for any discharges in any order: duplicates are refused, the run must succeed, and nothing may be left over |
| Verification.Verifier.VerifyWithSig | src/verifier.rs:49-96 | outcome, discharges left behind and number of calls of the recursive check, failures included |
| Verification.Verifier.SatisfyExact | src/verifier.rs:98-100 | the policy gains one exact predicate and loses nothing |
| Verification.Verifier.SatisfyGeneral | src/verifier.rs:102-104 | the policy gains one general predicate and loses nothing |
| DischargeTrees.NodeSound | src/verifier.rs:49-96 | a successful run yields a valid discharge tree of bounded height made of the discharges it consumed |
| DischargeTrees.NodeComplete | src/verifier.rs:49-96 | a valid discharge tree of bounded height makes the run succeed and consume exactly its nodes |
| VerdictTheorems.VerdictExact | src/verifier.rs:22-96 | verification succeeds if and only if discharge identifiers differ and a valid discharge tree uses exactly the supplied discharges |
| VerdictTheorems.VerdictPermuted | src/verifier.rs:30-41 | permuting the discharges never changes whether verification succeeds |
| VerdictTheorems.WorkBound | src/verifier.rs:49-82 | the number of nodes entered is one more than the number of discharges removed, whatever the outcome and the depth |
| VerdictTheorems.VerifiedDischarges | src/verifier.rs:30-45 | on success the third-party caveats name every discharge exactly once and nothing else, and can be ordered so that each names a later one |
| Outcomes.AcceptsExact | src/verifier.rs:71-78 | after any calls on a new verifier, a predicate is accepted if and only if one of them supplied it or a function that accepts it |
| Outcomes.AcceptedIsSupplied | src/verifier.rs:62-78 | what is accepted holds no predicate, in the macaroon or any discharge, that no call supplied |
| VerdictTheorems.SatisfiersOnlyWiden | src/verifier.rs:98-108 | after any further satisfiers everything that verified still verifies |
| HonestPlans.BuildFollows | src/lib.rs:308-450 | after any successful calls that create and add caveats, the signature is the chain over all caveats, each made from the value before it |
| HonestPlans.HonestVerdict | src/lib.rs:308-473 | macaroons and discharges made by the calls, bound to the root, verify if and only if identifiers differ, all predicates are accepted and nesting is at most 32 |
| HonestPlans.Attenuation | src/lib.rs:408-417 | with one more first-party caveat and rebound discharges, verification succeeds if and only if it did before and the new predicate is accepted |
| Outcomes.HonestOutcome | src/lib.rs:308-473 | the same over the calls on the verifier: identifiers differ, every predicate at any depth was supplied, and nesting is at most 32 |
| Outcomes.LeftoverExact | src/verifier.rs:30-45 | the answer is DischargeNotUsed if and only if identifiers differ and a valid discharge tree uses some but not all discharges; equal identifiers give CaveatNotSatisfied |
| Outcomes.FirstRefusal | src/verifier.rs:62-95 | the error for the first caveat that fails, of either kind, and for a signature that does not fit |
| Outcomes.CreatedExact | src/lib.rs:308-328 | when a macaroon is created, and which error is given otherwise |
| Outcomes.AddedExact | src/lib.rs:408-457 | when a caveat of either kind is added, and which error is given otherwise |
| Outcomes.BuildExact | src/lib.rs:308-457 | calls that create and add caveats all succeed if and only if there is an identifier, every field has at most 65535 bytes, there are at most 1000 caveats, and every nonce was generated |
| SignedBytes.ChainExact | src/crypto/rustcrypto.rs:37-53 | over bytes, if none of the MACs taken collide, two chains under one key agree if and only if the identifiers agree and each pair of caveats agrees up to location or is a third-party caveat and a first-party one that holds its two MACs |
| SignedBytes.ChainInjective | src/caveat.rs:45-50 | the same without the exception when no predicate has 64 bytes |
| SignedBytes.KindsSignedAlike | src/caveat.rs:45-50 | the exception occurs: macaroons with different kinds of caveat, made by the calls and accepted under one key and policy, have the same signature |
| Symbolic.ChainExact | src/caveat.rs:45-50 | with free MACs two chains under one key agree if and only if the identifiers agree and each pair of caveats agrees up to location or is that exception |
| Symbolic.RootSignature | src/verifier.rs:85-94 | with free MACs an accepted macaroon carries the chain over its own contents; the binding branch cannot apply to a root |
| Symbolic.AcceptedSignatures | src/verifier.rs:62-95 | with free MACs accepted macaroons have equal signatures if and only if they say the same, up to locations and predicates that hold the two MACs of a third-party caveat |
| Symbolic.OneKey | src/verifier.rs:62-95 | with free MACs a macaroon is accepted under one key at most |
| Symbolic.BoundToThisRoot | src/lib.rs:459-473 | with free MACs a discharge in a valid tree, unless its key stems from the root key, carries the binding of its chain to this very root: one bound to another root sits in no valid tree |
| Symbolic.UnboundDischarge | src/verifier.rs:85-94 | whatever its key: when no text has 64 bytes, the chain of a discharge in a valid tree is the root signature if and only if its key is the root chain after all third-party caveats and its contents are the rest of the root; every other discharge is bound to this root |
| Derivations.ContinuesHeld | src/verifier.rs:62-95 | with free MACs every accepted macaroon whose signature can be computed from held ones starts with caveats signed like all those of a held one |
| Derivations.CaveatsOnlyAdded | src/caveat.rs:45-50 | the same with the very caveats of a held one, locations aside, if its predicates can be computed too and the held macaroons hold no MACs: caveats can be added and not removed |
| Caveats.AssembleExact | src/caveat.rs:120-131 | a caveat is built from exactly its own fields; every other combination is refused |
| Macaroons.MutableMacaroon.Create | src/lib.rs:308-328 | creation with its size and emptiness checks, in their order |
| Macaroons.MutableMacaroon.AddFirstPartyCaveat | src/lib.rs:408-417 | appends and signs one caveat, or fails and leaves the macaroon as it was |
| Macaroons.MutableMacaroon.AddThirdPartyCaveat | src/lib.rs:433-450 | encrypts the caveat key under the current signature, appends and signs, or fails and leaves the macaroon as it was |
| Macaroons.MutableMacaroon.Bind | src/lib.rs:466-473 | only the signature of the discharge changes, to its bound form |
| MacaroonBuilders.MacaroonBuilder.AddCaveat | src/serialization/macaroon_builder.rs:43-49 | at most 1000 caveats, in order |
| MacaroonBuilders.MacaroonBuilder.Build | src/serialization/macaroon_builder.rs:51-66 | a macaroon of the collected fields, or an error without identifier or signature |
| FieldSizes.VarintSize | src/serialization/v2.rs:16-26 | the base-128 digits of a size |
| FieldSizes.VarintExact | src/serialization/v2.rs:16-26 | written sizes are the byte strings with the top bit set in all bytes but the last and no superfluous zero, each for the value of its base-128 digits |
| FieldSizes.FieldSizeExact | src/serialization/v2.rs:114-140 | a size is read, with any bytes after it, if and only if it is within the cap and written canonically; on both word widths |
| FieldSizes.FitsWord | src/serialization/v2.rs:118-131 | the bitwise or is a sum of digits, the next value stays below the next shift, and nothing overflows a 32-bit or 64-bit word |
| V2.Deserializer.GetFieldSize | src/serialization/v2.rs:114-140 | the reading loop computes the size that its digits spell |
| V2.Deserializer.GetField | src/serialization/v2.rs:100-112 | a field is exactly the announced bytes and the reader moves just past them |
| V2.SerializeBinary | src/serialization/v2.rs:34-58 | the written bytes follow the V2 grammar |
| V2.Deserialize | src/serialization/v2.rs:148-254 | the reading loop with its mutable builders computes the V2 parser, errors included |
| V2Format.ParseExact | src/serialization/v2.rs:148-254 | a byte string is accepted as a macaroon if and only if the macaroon is within the limits and the string is its encoding |
| V2Format.ParseInjective | src/serialization/v2.rs:114-140 | no macaroon has two accepted encodings, across word widths too |
| V2Format.EncodedBytes | src/serialization/v2.rs:34-58 | the version, tags and end marks of any macaroon, in numbers |
| V2Format.EncodedCaveats | src/serialization/v2.rs:41-54 | the tags and end marks of any caveats, in numbers |
| V1.SerializeAsPacket | src/serialization/v1.rs:21-50 | one packet with its size in lower-case hex, refused above 0xFFFF |
| V1.SerializeBinary | src/serialization/v1.rs:52-75 | the packets of a macaroon one after the other, or an error if any of them is too long |
| V1.DeserializeAsPackets | src/serialization/v1.rs:87-126 | the reading loop computes the packets of the token, errors included |
| V1.Deserialize | src/serialization/v1.rs:138-224 | the loop with its flags and builders computes the V1 parser, errors included |
| V1Format.HeaderExact | src/serialization/v1.rs:95-96 | a header is read as a size if and only if it is its four hex digits in either case, or a plus sign and the last three of them |
| V1Format.PacketExact | src/serialization/v1.rs:91-124 | a packet is read, with any bytes after it, if and only if header, key, space and value are its own, whatever byte ends it |
| V1Format.PacketsExact | src/serialization/v1.rs:87-126 | a token has given packets if and only if it consists of them |
| V1Format.TidyExact | src/serialization/v1.rs:21-50 | the written bytes are those of the packets with lower-case headers, no plus sign, and newlines at the ends |
| V1Grammar.InterpretExact | src/serialization/v1.rs:139-223 | packets are read as a macaroon if and only if they spell it: signature last, one identifier, at most one location, and the other packets cut into one group per caveat, in order, each a permutation of its fields; or strays |
| V1Grammar.OrderExact | src/serialization/v1.rs:52-75 | accepted packets are those that the writer writes if and only if each may follow the one before it in written order |
| V1Grammar.InterpretPackets | src/serialization/v1.rs:139-223 | the state machine reads back the packets of a macaroon |
| V1Theorems.ParseExact | src/serialization/v1.rs:87-224 | a byte string is accepted as a macaroon if and only if it consists of packets that spell it |
| V1Theorems.CanonicalExact | src/serialization/v1.rs:21-75 | a token is the written one if and only if it is accepted, its packets are in written order and its bytes are tidy |
| V1Theorems.SerializeExact | src/serialization/v1.rs:22-31 | serialization succeeds if and only if tag length plus value length plus 6 is at most 0xFFFF for every field |
| V1Text.SerializeExact | src/serialization/v1.rs:12-75 | for any macaroon, the whole text that is written, with sizes in hexadecimal and keys spelt out, or an error if a packet has more than 65535 bytes |
| V1Text.ParseText | src/serialization/v1.rs:87-224 | that text is read back as the macaroon |
| V1Theorems.Accounted | src/serialization/v1.rs:139-223 | accepted packets are a permutation of the packets of the macaroon and strays, with no strays if there is any caveat |
| V1Theorems.RoundTrip | src/serialization/v1.rs:21-75 | what can be written is read back as the same macaroon |
| V1Theorems.Normalizes | src/serialization/v1.rs:87-224 | every accepted token has a normal form that is read as the same macaroon and is shorter by exactly the strays |
| V1Theorems.LastByteIgnored | src/serialization/v1.rs:116-122 | replacing the last byte of an accepted token does not change what is read: V1 is not injective |
| Base64Text.SymbolExact | src/lib.rs:93-103 | the characters of both alphabets, as tables |
| Base64Text.EncodeExact | src/lib.rs:93-103 | a text is the encoding of some bytes if and only if it has the digits of the same number, in characters of the table, and the padding |
| Base64Text.ReadExact | src/lib.rs:264-275 | the lenient decoder reads a text as some bytes if and only if it has the digits of the same number, in one of the tables, and any part of the padding |
| Base64.DecodeExact | src/lib.rs:93-109 | decoding accepts exactly the encodings of a byte string, with any part of the padding left out |
| Base64.FlexibleDecodesEncode | src/lib.rs:264-275 | all four encodings of every non-empty byte string are read back |
| Base64.FlexibleExact | src/lib.rs:264-275 | the lenient decoder accepts a text if and only if it spells a non-empty byte string in one of the two alphabets, so the guess of the alphabet is right |
| V2Json.FromMacaroon | src/serialization/v2json.rs:42-83 | the object with the byte fields of every caveat in order |
| V2Json.FromJson | src/serialization/v2json.rs:97-208 | the reading loop computes the parser of objects, errors included |
| V2JsonGrammar.ReadExact | src/serialization/v2json.rs:97-208 | an object is read as a macaroon if and only if its version is 2, just one of every pair of fields is present and says the field of the macaroon, the caveats correspond in order, and all is within the limits |
| V2JsonGrammar.ParseExact | src/lib.rs:228-246 | the same with the byte fields still in base64 |
| V2JsonGrammar.Written | src/serialization/v2json.rs:42-83 | every field of the object that is written, byte fields in URL-safe base64 without padding |
| V2Json.JsonRoundTrip | src/serialization/v2json.rs:97-208 | an object made from a macaroon is read back if and only if the macaroon is within the limits |
| V2Json.RoundTripExact | src/lib.rs:214-246 | through JSON text a macaroon comes back if and only if no byte field is empty; otherwise it is a deserialization error |
| V2Json.EmptyPredicateIsLost | src/lib.rs:265-269 | a created macaroon with one empty predicate added is within the limits and written, but not read back |
| V2Json.TwinsAgree | src/serialization/v2json.rs:86-147 | which fields are plain and which are base64, and how the base64 text of a location or signature is spelled, does not change the result, success or error |
| Tokens.TokenRoundTrip | src/lib.rs:479-562 | in each format a macaroon comes back through sniffing if and only if the format can carry it |
| Tokens.TranscodeExact | src/lib.rs:479-562 | any chain of formats preserves the macaroon if each can carry it, and fails otherwise |
| Tokens.TokenExact | src/lib.rs:514-562 | a token is read as a macaroon if and only if it is an object that says it, or base64 of its V2 encoding or of V1 packets that spell it and start with a hexadecimal digit |
| Tokens.WrittenTokens | src/lib.rs:479-486 | binary tokens are written in URL-safe base64 with padding |
| Tokens.DeserializedWellFormed | src/lib.rs:514-562 | every accepted token, in any format, is within the limits of the crate |
| Refusals.TokenRefusal | src/lib.rs:514-562 | whatever bytes are read as a token, an error is one of the five errors of reading |
| Utf8.Utf8Exact | src/serialization/v1.rs:161 | bytes are taken for a string if and only if they are encodings of Unicode scalar values (section 3 of RFC 3629) |
| Reachable.ReachableWellFormed | src/lib.rs:131-155 | over every run of calls and deserializations a macaroon has an identifier, fields within the cap and at most 1000 caveats |

## Left out

- The internals of HMAC-SHA256, XSalsa20-Poly1305 and the operating system's random numbers: library code, taken as parameters.
- Encryption failing inside the cipher (`src/crypto/rustcrypto.rs:69`): the cipher has no such failure for 32-byte keys.
- Key derivation from a seed and random keys (`src/crypto/mod.rs:108-131`): they only supply keys.
- Zeroization, constant-time comparison and redacted debug output: key equality is plain equality.
- JSON text, unknown and duplicate fields: the JSON library's work; the model starts from the object.
- Error messages and logging: only the error variants are kept.
- Feature flags: the model has `v2json` on.
- Caveat accessors and the list filters of `src/lib.rs:354-367`: no property lives there.
- V2.Deserializer.GetFieldSize: after an error the position of the reader is not stated, because every caller gives up then.
- V2.Deserialize, V1.Deserialize, Verification.Verifier.VerifyWithSig: each function of the source is cut into methods for its sections, its kinds of packets, and its single caveats.
- Derivations.CaveatsOnlyAdded: decrypting is not a way to compute a term; whatever a holder can decrypt counts as held from the start.
