/**
  The logon decision of the LSA authentication package: a second verifier, which must agree with
  the service, and whose output blocks on the LSA heap must not leak on any path.
  */
module LsaPackage {
  import opened Bytes
  import opened Protocol
  import opened Crypto
  import opened DeviceIds
  import opened DeviceRegistry
  import Auth = Authentication

  const SUBMIT_BUFFER_MAGIC := 0x4D55_4C53
  const SUBMIT_BUFFER_VERSION := 1
  const SUBMIT_BUFFER_SIZE := 180
  const FALLBACK_USER := "MobileUnlockUser"
  const AUTHORITY := "MobileFingerprintUnlock"

  datatype Status =
    | Accepted | InvalidParameter | BufferTooSmall | LogonFailure | NoSuchUser
    | AccountRestriction | InsufficientResources

  function DecideMessage(ecdsa: Ecdsa, store: Store, msg: SignedMessage, device: DeviceId, sig: Octets): Status {
    if msg.device != device then LogonFailure
    else if msg.operation != AUTH_RESPONSE then LogonFailure
    else
      var record := Lookup(store, DeviceIdToString(device));
      if record.None? then NoSuchUser
      else if record.value.status != STATUS_ACTIVE then AccountRestriction
      else if record.value.key == [] then LogonFailure
      else if !Verifies(ecdsa, record.value.key, msg, sig) then LogonFailure
      else Accepted
  }

  /** The decision up to the allocation of the outputs. A missing buffer is the null pointer. */
  function Decide(ecdsa: Ecdsa, store: Store, submit: Option<Octets>): Status {
    if submit.None? then InvalidParameter
    else if |submit.value| < SUBMIT_BUFFER_SIZE then BufferTooSmall
    else
      var b := submit.value;
      if LoadLittleEndian(b[..4]) != SUBMIT_BUFFER_MAGIC || LoadLittleEndian(b[4..8]) != SUBMIT_BUFFER_VERSION
         || LoadLittleEndian(b[24..28]) != 0 then InvalidParameter
      else if DecodeMessage(b[28..116]).None? then InvalidParameter
      else DecideMessage(ecdsa, store, DecodeMessage(b[28..116]).value, b[8..24], b[116..180])
  }

  /** From the text of a SID to the name of its account, empty if there is none to be found. */
  type SidLookup = string -> string

  /** The record that the device field of a logon buffer names. */
  function RecordOf(store: Store, b: Octets): Option<DeviceRecord>
    requires |b| >= SUBMIT_BUFFER_SIZE
  {
    Lookup(store, DeviceIdToString(b[8..24]))
  }

  /** What the user may be called: the account of the record first, then the phone, then nothing of both. */
  predicate NamesUser(text: string, record: DeviceRecord, resolve: SidLookup) {
    var account := if record.sid == "" then "" else resolve(record.sid);
    && (account != "" ==> text == account)
    && (account == "" && record.name != "" ==> text == record.name)
    && (account == "" && record.name == "" ==> text == "MobileUnlockUser")
  }

  /** Where the account resolves, the phone's own name has no say. */
  lemma {:induction false} AccountNamesUser(text: string, other: string, record: DeviceRecord, name: string,
                                            resolve: SidLookup)
    requires NamesUser(text, record, resolve) && NamesUser(other, record.(name := name), resolve)
    ensures text == other || (record.name != name && (record.sid == "" || resolve(record.sid) == ""))
    ensures record.sid != "" && resolve(record.sid) != "" ==> text == other == resolve(record.sid)
  {
  }

  // ---------------------------------------------------------------------------
  // The decision, octet by octet
  // ---------------------------------------------------------------------------

  lemma {:induction false} LoadsTo(s: Octets, v: U32)
    requires |s| == 4
    ensures LoadLittleEndian(s) == v <==> s == LittleEndian(v, 4)
  {
    hide LoadLittleEndian, LittleEndian, Reversed, Value, BigEndian;
    LoadMirrors(s);
    LoadMirrors(LittleEndian(v, 4));
    ByteOrdersMirror(v, 4);
    ReversedTwice(BigEndian(v, 4));
    FieldRoundTrip(v, 4);
    if LoadLittleEndian(s) == v {
      BigEndianOfValue(Reversed(s));
      ReversedTwice(s);
    }
  }

  lemma {:induction false} HeaderImages()
    ensures LittleEndian(SUBMIT_BUFFER_MAGIC, 4) == [0x53, 0x4C, 0x55, 0x4D]
    ensures LittleEndian(SUBMIT_BUFFER_VERSION, 4) == [1, 0, 0, 0] && LittleEndian(0, 4) == [0, 0, 0, 0]
  {
    assert LittleEndian(0x4D55, 2) == [0x55, 0x4D];
    assert LittleEndian(0, 2) == [0, 0];
  }

  /** "SLUM", version 1, reserved zeros, and a signed message of version 1.0 with a known opcode. */
  predicate WellFormedBuffer(b: Octets) {
    && |b| >= 180
    && b[..4] == [0x53, 0x4C, 0x55, 0x4D] && b[4..8] == [1, 0, 0, 0] && b[24..28] == [0, 0, 0, 0]
    && b[28] == 1 && b[29] == 0 && b[62] == 0 && KnownOpcode(b[63])
  }

  /** The device field is the one that was signed, and the operation is AUTH_RESPONSE. */
  predicate MatchesMessage(b: Octets)
    requires |b| >= 180
  {
    b[8..24] == b[46..62] && b[63] == 0x22
  }

  ghost predicate SignedBuffer(ecdsa: Ecdsa, record: DeviceRecord, b: Octets)
    requires |b| >= 180
  {
    record.key != [] && SignedOctets(ecdsa, record.key, b[28..116], b[116..180])
  }

  lemma {:induction false} BufferMessage(b: Octets)
    requires |b| >= 180
    ensures DecodeMessage(b[28..116]).Some? <==> b[28] == 1 && b[29] == 0 && b[62] == 0 && KnownOpcode(b[63])
    ensures DecodeMessage(b[28..116]).Some? ==>
            && DecodeMessage(b[28..116]).value.device == b[46..62]
            && DecodeMessage(b[28..116]).value.operation == b[63]
  {
    hide Value;
    var s := b[28..116];
    TwoOctets(s[..2]);
    TwoOctets(s[34..36]);
    MessageAcceptedExactly(s, ReadMessage(s));
    assert s[18..34] == b[46..62];
  }

  /** Every status of the decision, on any buffer at all. */
  lemma {:induction false} DecidedExactly(ecdsa: Ecdsa, store: Store, b: Octets)
    ensures var v := Decide(ecdsa, store, Some(b));
            && (v == BufferTooSmall <==> |b| < 180)
            && (v == InvalidParameter <==> |b| >= 180 && !WellFormedBuffer(b))
            && (WellFormedBuffer(b) ==>
                  var fits, record := MatchesMessage(b), RecordOf(store, b);
                  && (v == NoSuchUser <==> fits && record.None?)
                  && (v == AccountRestriction <==> fits && record.Some? && record.value.status != STATUS_ACTIVE)
                  && (v == Accepted <==>
                      && fits && record.Some? && record.value.status == STATUS_ACTIVE
                      && SignedBuffer(ecdsa, record.value, b))
                  && (v == LogonFailure <==>
                      || !fits
                      || (record.Some? && record.value.status == STATUS_ACTIVE &&
                          !SignedBuffer(ecdsa, record.value, b))))
    ensures Decide(ecdsa, store, None) == InvalidParameter
  {
    hide DecodeMessage, LoadLittleEndian, LittleEndian, Lookup, DeviceIdToString, Verifies, SignedOctets, KnownOpcode;
    if |b| >= 180 {
      LoadsTo(b[..4], SUBMIT_BUFFER_MAGIC);
      LoadsTo(b[4..8], SUBMIT_BUFFER_VERSION);
      LoadsTo(b[24..28], 0);
      HeaderImages();
      BufferMessage(b);
      var record := RecordOf(store, b);
      if DecodeMessage(b[28..116]).Some? && record.Some? {
        VerifiesReceivedOctets(ecdsa, record.value.key, b[28..116], DecodeMessage(b[28..116]).value, b[116..180]);
      }
    }
  }

  type Pointer = nat

  class Package {
    /** Outstanding LSA heap blocks and the text in them. */
    var heap: map<Pointer, string>
    var nextBlock: Pointer

    ghost predicate Valid()
      reads this
    {
      forall p :: p in heap ==> p < nextBlock
    }

    constructor ()
      ensures Valid() && heap == map[]
    {
      heap, nextBlock := map[], 1;
    }

    /** `granted` tells whether the LSA allocator has memory. */
    method CreateUnicodeString(text: string, granted: bool) returns (block: Option<Pointer>)
      requires Valid()
      modifies this
      ensures Valid()
      ensures granted ==> block.Some? && block.value !in old(heap) && heap == old(heap)[block.value := text]
      ensures !granted ==> block.None? && heap == old(heap)
    {
      if !granted {
        return None;
      }
      block := Some(nextBlock);
      heap := heap[nextBlock := text];
      nextBlock := nextBlock + 1;
    }

    method FreeHeap(block: Pointer)
      requires Valid()
      modifies this`heap
      ensures Valid() && heap == old(heap) - {block}
    {
      heap := heap - {block};
    }

    /** Steps 1 to 5: validation, registry lookup and signature. */
    method Validate(ecdsa: Ecdsa, registry: Registry, submit: Option<Octets>)
      returns (status: Status, record: Option<DeviceRecord>)
      ensures status == Decide(ecdsa, registry.store, submit)
      ensures status == Accepted ==> submit.Some? && |submit.value| >= SUBMIT_BUFFER_SIZE
                                     && record.Some?
                                     && record == Lookup(registry.store, DeviceIdToString(submit.value[8..24]))
    {
      hide DeviceIdToString, Verifies, DecodeMessage, LoadLittleEndian, Lookup;
      record := None;
      if submit.None? {
        return InvalidParameter, None;
      }
      var b := submit.value;
      if |b| < SUBMIT_BUFFER_SIZE {
        return BufferTooSmall, None;
      }
      if LoadLittleEndian(b[..4]) != SUBMIT_BUFFER_MAGIC || LoadLittleEndian(b[4..8]) != SUBMIT_BUFFER_VERSION
         || LoadLittleEndian(b[24..28]) != 0 {
        return InvalidParameter, None;
      }
      var parseRes := DeserializeSignedMessage(b[28..116]);
      if parseRes.None? {
        return InvalidParameter, None;
      }
      var msg := parseRes.value;
      if msg.device != b[8..24] {
        return LogonFailure, None;
      }
      if msg.operation != AUTH_RESPONSE {
        return LogonFailure, None;
      }
      var devId: DeviceId := b[8..24];
      record := registry.ReadDeviceRecord(DeviceIdToString(devId));
      if record.None? {
        return NoSuchUser, None;
      }
      if record.value.status != STATUS_ACTIVE {
        return AccountRestriction, record;
      }
      if record.value.key == [] {
        return LogonFailure, record;
      }
      var sigValid := VerifyCanonicalSignedMessage(ecdsa, record.value.key, msg, b[116..180]);
      if !sigValid {
        return LogonFailure, record;
      }
      return Accepted, record;
    }

    /**
      `wantAccount` and `wantAuthority` say which output pointers the caller passed; `resolve` is
      the SID lookup. On failure nothing stays allocated and both outputs are null; on
      success the new blocks are exactly the outputs asked for, with the right text in them.
      */
    method LogonUserEx2(ecdsa: Ecdsa, registry: Registry, submit: Option<Octets>, wantAccount: bool,
                        wantAuthority: bool, resolve: SidLookup,
                        memoryForAccount: bool, memoryForAuthority: bool)
      returns (status: Status, accountName: Option<Pointer>, authority: Option<Pointer>)
      requires Valid()
      modifies this
      ensures Valid()
      ensures status == if Decide(ecdsa, registry.store, submit) != Accepted then Decide(ecdsa, registry.store, submit)
                        else if (wantAccount && !memoryForAccount) || (wantAuthority && !memoryForAuthority) then
                          InsufficientResources
                        else Accepted
      ensures status != Accepted ==> heap == old(heap) && accountName.None? && authority.None?
      ensures status == Accepted ==>
                && (accountName.Some? <==> wantAccount) && (authority.Some? <==> wantAuthority)
                && (accountName.Some? ==> accountName.value !in old(heap) && accountName.value in heap)
                && (authority.Some? ==>
                    && authority.value !in old(heap) && authority.value in heap
                    && heap[authority.value] == "MobileFingerprintUnlock")
                && (accountName.Some? && authority.Some? ==> accountName.value != authority.value)
                && heap.Keys == old(heap).Keys + (if accountName.Some? then {accountName.value} else {}) +
                  (if authority.Some? then {authority.value} else {})
                && forall p :: p in old(heap) ==> heap[p] == old(heap)[p]
      ensures status == Accepted && accountName.Some? ==>
                && submit.Some? && |submit.value| >= SUBMIT_BUFFER_SIZE && RecordOf(registry.store, submit.value).Some?
                && NamesUser(heap[accountName.value], RecordOf(registry.store, submit.value).value, resolve)
    {
      hide DeviceIdToString, Decide, Lookup;
      accountName, authority := None, None;
      var record;
      status, record := Validate(ecdsa, registry, submit);
      if status != Accepted {
        return;
      }
      var targetUserName := "";
      if record.value.sid != "" {
        targetUserName := resolve(record.value.sid);
      }
      if targetUserName == "" {
        if record.value.name != "" {
          targetUserName := record.value.name;
        } else {
          targetUserName := FALLBACK_USER;
        }
      }
      if wantAccount {
        accountName := CreateUnicodeString(targetUserName, memoryForAccount);
        if accountName.None? {
          return InsufficientResources, None, None;
        }
      }
      if wantAuthority {
        authority := CreateUnicodeString(AUTHORITY, memoryForAuthority);
        if authority.None? {
          if accountName.Some? {
            FreeHeap(accountName.value);
            accountName := None;
          }
          assert heap == old(heap);
          return InsufficientResources, None, None;
        }
      }
    }
  }

  // ---------------------------------------------------------------------------
  // Agreement with the service
  // ---------------------------------------------------------------------------

  /** The logon buffer the credential provider builds from a response payload. */
  function Repack(payload: Octets): (b: Octets)
    requires |payload| == Auth.RESPONSE_SIZE
    ensures |b| == SUBMIT_BUFFER_SIZE
  {
    LittleEndian(SUBMIT_BUFFER_MAGIC, 4) + LittleEndian(SUBMIT_BUFFER_VERSION, 4) + payload[18..34] +
      LittleEndian(0, 4) + payload
  }

  lemma {:induction false} StoreThenLoad(v: U32)
    ensures LoadLittleEndian(LittleEndian(v, 4)) == v
  {
    hide LoadLittleEndian, LittleEndian, Reversed, Value, BigEndian;
    LoadMirrors(LittleEndian(v, 4));
    ByteOrdersMirror(v, 4);
    ReversedTwice(BigEndian(v, 4));
    FieldRoundTrip(v, 4);
  }

  lemma {:induction false} RepackFields(payload: Octets)
    requires |payload| == Auth.RESPONSE_SIZE
    ensures var b := Repack(payload);
            && b[..4] == LittleEndian(SUBMIT_BUFFER_MAGIC, 4) && b[4..8] == LittleEndian(SUBMIT_BUFFER_VERSION, 4)
            && b[8..24] == payload[18..34] && b[24..28] == LittleEndian(0, 4)
            && b[28..116] == payload[..88] && b[116..180] == payload[88..]
  {
    hide LittleEndian;
  }

  lemma {:induction false} DeviceField(payload: Octets)
    requires |payload| == Auth.RESPONSE_SIZE && DecodeMessage(payload[..88]).Some?
    ensures DecodeMessage(payload[..88]).value.device == payload[18..34]
  {
    assert payload[..88][18..34] == payload[18..34];
  }

  /** The decision on a repacked payload, in the service's terms. */
  lemma {:induction false} RepackedDecision(ecdsa: Ecdsa, store: Store, payload: Octets)
    requires Auth.Parsed(payload).Some?
    ensures Decide(ecdsa, store, Some(Repack(payload))) ==
            DecideMessage(ecdsa, store, Auth.Parsed(payload).value, Auth.Parsed(payload).value.device,
                          Auth.SignatureOf(payload))
  {
    hide DecodeMessage, LoadLittleEndian, LittleEndian, DecideMessage, Repack;
    RepackFields(payload);
    DeviceField(payload);
    StoreThenLoad(SUBMIT_BUFFER_MAGIC);
    StoreThenLoad(SUBMIT_BUFFER_VERSION);
    StoreThenLoad(0);
  }

  /**
    Everything the service grants is accepted by the package exactly when its operation is
    AUTH_RESPONSE, both against the registry the service saw and the one it left behind.
    */
  lemma {:induction false} VerifiersAgree(ecdsa: Ecdsa, s: Auth.State, store: Store, payload: Octets, now: Auth.Millis,
                                          seenAt: U64)
    requires Auth.Respond(ecdsa, s, store, payload, now).1.Granted?
    ensures Auth.Parsed(payload).Some?
    ensures Decide(ecdsa, store, Some(Repack(payload))) == Accepted <==>
            Auth.Parsed(payload).value.operation == AUTH_RESPONSE
    ensures var v := Auth.Respond(ecdsa, s, store, payload, now).1;
            Decide(ecdsa, Auth.StoreAfterResponse(store, payload, v, seenAt), Some(Repack(payload))) ==
              Decide(ecdsa, store, Some(Repack(payload)))
  {
    hide Decide, DecodeMessage, Verifies, DeviceIdToString, Repack;
    RepackedDecision(ecdsa, store, payload);
    var v := Auth.Respond(ecdsa, s, store, payload, now).1;
    RepackedDecision(ecdsa, Auth.StoreAfterResponse(store, payload, v, seenAt), payload);
  }

  /** The package accepts no operation but AUTH_RESPONSE, and only active devices that signed the octets sent. */
  lemma {:induction false} AcceptedExactly(ecdsa: Ecdsa, store: Store, payload: Octets)
    requires Auth.Parsed(payload).Some?
    ensures var msg := Auth.Parsed(payload).value;
            var record := Lookup(store, DeviceIdToString(msg.device));
            Decide(ecdsa, store, Some(Repack(payload))) == Accepted <==>
              && msg.operation == AUTH_RESPONSE
              && record.Some? && record.value.status == STATUS_ACTIVE && record.value.key != []
              && SignedOctets(ecdsa, record.value.key, payload[..88], payload[88..])
  {
    hide Decide, DecodeMessage, Verifies, SignedOctets, DeviceIdToString, Repack, Lookup;
    RepackedDecision(ecdsa, store, payload);
    var record := Lookup(store, DeviceIdToString(Auth.Parsed(payload).value.device));
    if record.Some? {
      VerifiesReceivedOctets(ecdsa, record.value.key, payload[..88], Auth.Parsed(payload).value, payload[88..]);
    }
  }
}
