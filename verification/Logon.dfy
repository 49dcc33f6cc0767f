/**
  From pairing to logon: the user that Windows is told belongs to the account that confirmed the
  PIN of the phone, for every payload the service grants.
  */
module Logon {
  import opened Bytes
  import opened Protocol
  import opened Crypto
  import opened DeviceIds
  import opened DeviceRegistry
  import opened UnlockSystem
  import Lsa = LsaPackage

  lemma {:induction false} GrantIsAccepted(ecdsa: Ecdsa, s: Auth.State, store: Store, payload: Octets, now: Auth.Millis,
                                           seenAt: U64, sid: string)
    requires Auth.Respond(ecdsa, s, store, payload, now).1 == Auth.Granted(sid)
    ensures Auth.Parsed(payload).Some? && |payload| == Auth.RESPONSE_SIZE
    ensures var after := Auth.StoreAfterResponse(store, payload, Auth.Granted(sid), seenAt);
            var record := Lsa.RecordOf(after, Lsa.Repack(payload));
            && record.Some? && record.value.sid == sid
            && (Lsa.Decide(ecdsa, after, Some(Lsa.Repack(payload))) == Lsa.Accepted <==>
                Auth.Parsed(payload).value.operation == AUTH_RESPONSE)
  {
    hide DecodeMessage, Verifies, DeviceIdToString, Lsa.Repack, Lsa.Decide, TextBack, KeyBack;
    Lsa.VerifiersAgree(ecdsa, s, store, payload, now, seenAt);
    Lsa.RepackFields(payload);
    Lsa.DeviceField(payload);
  }

  lemma {:induction false} GrantStep(ecdsa: Ecdsa, log: seq<Entry>, j: nat, sid: string)
    requires Legal(ecdsa, EMPTY, log) && j < |log|
    requires log[j].event.Authenticate? && log[j].event.call.AuthResponse?
    requires log[j].outcome == AuthReply(Auth.Granted(sid))
    ensures var e, s := log[j].event, StateAfter(ecdsa, EMPTY, log[..j]);
            && Auth.Respond(ecdsa, s.auth, s.store, e.call.payload, e.now).1 == Auth.Granted(sid)
            && StateAfter(ecdsa, EMPTY, log[..j + 1]).store ==
               Auth.StoreAfterResponse(s.store, e.call.payload, Auth.Granted(sid), e.seenAt)
  {
    hide Auth.Respond, Auth.StoreAfterResponse, Pairing.OnRequest, Pairing.OnConfirm, Legal;
    LegalAt(ecdsa, EMPTY, log, j);
    assert log[..j + 1][..j] == log[..j];
  }

  lemma {:induction false} GrantWasPaired(ecdsa: Ecdsa, log: seq<Entry>, j: nat, sid: string)
    requires Legal(ecdsa, EMPTY, log) && j < |log|
    requires log[j].event.Authenticate? && log[j].event.call.AuthResponse?
    requires log[j].outcome == AuthReply(Auth.Granted(sid))
    ensures Auth.Parsed(log[j].event.call.payload).Some?
    ensures exists w ::
            PairedFor(log[..j], DeviceIdToString(Auth.Parsed(log[j].event.call.payload).value.device), sid, w)
  {
    hide Legal, PairedFor, ActiveAt, SignedUnder, AuthView, AuthLog.LockedOut, AnswersLive, DecodeMessage;
    GrantsComeFromPairings(ecdsa, log, j, sid);
  }

  lemma {:induction false} NamedByAccount(store: Store, payload: Octets, sid: string, resolve: Lsa.SidLookup,
                                          text: string)
    requires |payload| == Auth.RESPONSE_SIZE && Lsa.RecordOf(store, Lsa.Repack(payload)).Some?
    requires Lsa.RecordOf(store, Lsa.Repack(payload)).value.sid == sid
    ensures Lsa.NamesUser(text, Lsa.RecordOf(store, Lsa.Repack(payload)).value, resolve) && sid != "" &&
            resolve(sid) != ""
            ==> text == resolve(sid)
  {
    hide Lsa.RecordOf, Lsa.Repack;
  }

  /**
    A payload with operation AUTH_RESPONSE that the service grants is accepted for logon against
    the registry it leaves behind; and when the account that the device was last paired for has a
    name, that is the user reported, whatever the phone calls itself.
    */
  lemma {:induction false} LogonNamesPairedAccount(ecdsa: Ecdsa, log: seq<Entry>, j: nat, sid: string,
                                                   resolve: Lsa.SidLookup, text: string)
    requires Legal(ecdsa, EMPTY, log) && j < |log|
    requires log[j].event.Authenticate? && log[j].event.call.AuthResponse?
    requires log[j].outcome == AuthReply(Auth.Granted(sid))
    ensures var payload := log[j].event.call.payload;
            && Auth.Parsed(payload).Some?
            && var msg, store := Auth.Parsed(payload).value, StateAfter(ecdsa, EMPTY, log[..j + 1]).store;
               var record := Lsa.RecordOf(store, Lsa.Repack(payload));
               && (exists w :: PairedFor(log[..j], DeviceIdToString(msg.device), sid, w))
               && (Lsa.Decide(ecdsa, store, Some(Lsa.Repack(payload))) == Lsa.Accepted <==>
                   msg.operation == AUTH_RESPONSE)
               && record.Some?
               && (Lsa.NamesUser(text, record.value, resolve) && sid != "" && resolve(sid) != "" ==>
                   text == resolve(sid))
  {
    hide *;
    var e, s := log[j].event, StateAfter(ecdsa, EMPTY, log[..j]);
    GrantStep(ecdsa, log, j, sid);
    GrantWasPaired(ecdsa, log, j, sid);
    GrantIsAccepted(ecdsa, s.auth, s.store, e.call.payload, e.now, e.seenAt, sid);
    NamedByAccount(StateAfter(ecdsa, EMPTY, log[..j + 1]).store, e.call.payload, sid, resolve, text);
  }
}
