/** Registering a device and uploading a CSR against a service that may answer anything: how many
    requests are sent, and which records may be returned. */
module RemoteLookup {
  import opened Wrappers

  const LOOKUP_ATTEMPTS := 5

  datatype DeviceRecord = DeviceRecord(id: Option<string>, udid: string, deviceName: string)
  datatype CertificateRecord = CertificateRecord(id: Option<string>, certName: string, certType: string, url: string)

  datatype AgcError =
    | RequestFailed
    | Rejected
    | Quota
    | InvalidPayload
    | DeviceUdidAmbiguous(matches: nat)
    | DeviceNotVisible(attempts: nat)
    | CertificateNameAmbiguous(matches: nat)
    | CertificateNotVisible(attempts: nat)

  /** Code of an answer to an add, whether its message reports a duplicate, and its record. Only the
      certificate endpoint tells a reached quota from other rejections. */
  datatype Status = Accepted | RejectedCode | QuotaReached
  datatype Reply<T> = Reply(status: Status, duplicate: bool, record: Option<T>)

  /** What the service answers to its n-th list or add request; None for a request that fails. */
  datatype Server = Server(
    devices: nat -> Option<seq<DeviceRecord>>,
    addDevice: nat -> Option<Reply<DeviceRecord>>,
    certificates: nat -> Option<seq<CertificateRecord>>,
    addCertificate: nat -> Option<Reply<CertificateRecord>>)

  function LowerAscii(c: char): char {
    if 'A' <= c <= 'Z' then (c as int + 32) as char else c
  }

  predicate EqIgnoreAsciiCase(a: string, b: string) {
    |a| == |b| && forall i :: 0 <= i < |a| ==> LowerAscii(a[i]) == LowerAscii(b[i])
  }

  predicate NonEmptyId(id: Option<string>) {
    id.Some? && id.value != ""
  }

  /** Complete records of that device, in order. */
  function DeviceMatches(devices: seq<DeviceRecord>, udid: string): seq<DeviceRecord> {
    if devices == [] then []
    else
      var rest, d := DeviceMatches(devices[..|devices| - 1], udid), devices[|devices| - 1];
      if EqIgnoreAsciiCase(d.udid, udid) && NonEmptyId(d.id) then rest + [d] else rest
  }

  /** Complete certificates of that name, in order. */
  function CertificateMatches(certificates: seq<CertificateRecord>, name: string): seq<CertificateRecord> {
    if certificates == [] then []
    else
      var rest, c := CertificateMatches(certificates[..|certificates| - 1], name), certificates[|certificates| - 1];
      if c.certName == name && NonEmptyId(c.id) && c.url != "" then rest + [c] else rest
  }

  lemma {:induction false} DeviceMatchesMatch(devices: seq<DeviceRecord>, udid: string)
    ensures forall d :: d in DeviceMatches(devices, udid) <==>
              d in devices && EqIgnoreAsciiCase(d.udid, udid) && NonEmptyId(d.id)
  {
    if devices == [] {
    } else {
      DeviceMatchesMatch(devices[..|devices| - 1], udid);
      assert devices == devices[..|devices| - 1] + [devices[|devices| - 1]];
    }
  }

  lemma {:induction false} CertificateMatchesMatch(certificates: seq<CertificateRecord>, name: string)
    ensures forall c :: c in CertificateMatches(certificates, name) <==>
              c in certificates && c.certName == name && NonEmptyId(c.id) && c.url != ""
  {
    if certificates == [] {
    } else {
      CertificateMatchesMatch(certificates[..|certificates| - 1], name);
      assert certificates == certificates[..|certificates| - 1] + [certificates[|certificates| - 1]];
    }
  }

  /** `unique_complete_device`: the only match, none, or an error with the number of matches. */
  method UniqueCompleteDevice(devices: seq<DeviceRecord>, udid: string)
    returns (r: Result<Option<DeviceRecord>, AgcError>)
    ensures var matches := DeviceMatches(devices, udid);
      r == if |matches| > 1 then Err(DeviceUdidAmbiguous(|matches|))
           else if |matches| == 1 then Ok(Some(matches[0])) else Ok(None)
  {
    hide EqIgnoreAsciiCase, NonEmptyId;
    var selected: Option<DeviceRecord> := None;
    var matches := 0;
    for i := 0 to |devices|
      invariant matches == |DeviceMatches(devices[..i], udid)|
      invariant selected == if matches == 0 then None else Some(DeviceMatches(devices[..i], udid)[0])
    {
      assert devices[..i + 1][..i] == devices[..i];
      if EqIgnoreAsciiCase(devices[i].udid, udid) && NonEmptyId(devices[i].id) {
        matches := matches + 1;
        if selected.None? {
          selected := Some(devices[i]);
        }
      }
    }
    assert devices[..|devices|] == devices;
    if matches > 1 {
      return Err(DeviceUdidAmbiguous(matches));
    }
    return Ok(selected);
  }

  // ----- Lookups after an add -----

  function DeviceMatcher(udid: string): seq<DeviceRecord> -> seq<DeviceRecord> {
    devices => DeviceMatches(devices, udid)
  }

  function CertificateMatcher(name: string): seq<CertificateRecord> -> seq<CertificateRecord> {
    certificates => CertificateMatches(certificates, name)
  }

  datatype Polled<T> = Found(record: T) | Ambiguous(matches: nat) | NotVisible

  /** Result of up to `left` list requests from number `from` on, and the number after the last. */
  function Poll<T>(answers: nat -> Option<seq<T>>, matches: seq<T> -> seq<T>, from: nat, left: nat): (Polled<T>, nat)
    decreases left
  {
    if left == 0 then (NotVisible, from)
    else if answers(from).None? then Poll(answers, matches, from + 1, left - 1)
    else
      var found := matches(answers(from).value);
      if |found| == 0 then Poll(answers, matches, from + 1, left - 1)
      else if |found| == 1 then (Found(found[0]), from + 1)
      else (Ambiguous(|found|), from + 1)
  }

  /** The list was not received, or has no match. */
  predicate NoMatch<T>(answers: nat -> Option<seq<T>>, matches: seq<T> -> seq<T>, n: nat) {
    answers(n).Some? ==> matches(answers(n).value) == []
  }

  /** A lookup ends at the first received list with a match; one match is the result, several are
      an error, and running out of attempts means that no list had any. */
  lemma {:induction false} PollExact<T>(answers: nat -> Option<seq<T>>, matches: seq<T> -> seq<T>, from: nat, left: nat)
    ensures
      var (r, next) := Poll(answers, matches, from, left);
      && from <= next <= from + left
      && (if r.NotVisible? then next == from + left && forall n :: from <= n < next ==> NoMatch(answers, matches, n)
          else
            && next > from && answers(next - 1).Some?
            && (forall n :: from <= n < next - 1 ==> NoMatch(answers, matches, n))
            && var last := matches(answers(next - 1).value);
               if r.Found? then last == [r.record] else |last| == r.matches > 1)
    decreases left
  {
    if left > 0 && NoMatch(answers, matches, from) {
      PollExact(answers, matches, from + 1, left - 1);
    }
  }

  // ----- Registering a device -----

  /** Result of an operation and how many list and add requests the client has sent by then. */
  datatype Outcome<T> = Outcome(result: Result<T, AgcError>, lists: nat, adds: nat)

  function DeviceLookup(server: Server, udid: string, lists: nat, adds: nat): Outcome<DeviceRecord> {
    var (polled, next) := Poll(server.devices, DeviceMatcher(udid), lists, LOOKUP_ATTEMPTS);
    match polled
    case Found(d) => Outcome(Ok(d), next, adds)
    case Ambiguous(n) => Outcome(Err(DeviceUdidAmbiguous(n)), next, adds)
    case NotVisible => Outcome(Err(DeviceNotVisible(LOOKUP_ATTEMPTS)), next, adds)
  }

  /** The add's own answer, if it settles the registration. */
  function DirectDevice(reply: Reply<DeviceRecord>, udid: string, deviceName: string)
    : Option<Result<DeviceRecord, AgcError>>
  {
    if reply.duplicate then None
    else if reply.status != Accepted then Some(Err(Rejected))
    else if reply.record.None? then Some(Err(InvalidPayload))
    else
      var d := reply.record.value;
      if NonEmptyId(d.id) && (d.udid == "" || EqIgnoreAsciiCase(d.udid, udid)) then
        Some(Ok(DeviceRecord(d.id, if d.udid == "" then udid else d.udid,
                             if d.deviceName == "" then deviceName else d.deviceName)))
      else None
  }

  predicate SeenDevice(devices: seq<DeviceRecord>, udid: string) {
    exists d :: d in devices && EqIgnoreAsciiCase(d.udid, udid)
  }

  function Registration(server: Server, udid: string, deviceName: string, lists: nat, adds: nat)
    : Outcome<DeviceRecord>
  {
    if server.devices(lists).None? then Outcome(Err(RequestFailed), lists + 1, adds)
    else
      var first := server.devices(lists).value;
      var matches := DeviceMatches(first, udid);
      if |matches| > 1 then Outcome(Err(DeviceUdidAmbiguous(|matches|)), lists + 1, adds)
      else if |matches| == 1 then Outcome(Ok(matches[0]), lists + 1, adds)
      else if SeenDevice(first, udid) then DeviceLookup(server, udid, lists + 1, adds)
      else if server.addDevice(adds).None? then Outcome(Err(RequestFailed), lists + 1, adds + 1)
      else
        var direct := DirectDevice(server.addDevice(adds).value, udid, deviceName);
        if direct.Some? then Outcome(direct.value, lists + 1, adds + 1)
        else DeviceLookup(server, udid, lists + 1, adds + 1)
  }

  /** Whatever the service answers: an add is sent exactly if the first list was received and holds
      no record of the device, complete or not; at most six lists are asked for. A returned record
      is complete and of that device, and is the only complete match of the last list unless it is
      the add's own answer; the device is reported invisible only after five lists without one. */
  lemma RegistrationOutcome(server: Server, udid: string, deviceName: string, lists: nat, adds: nat)
    ensures
      var o := Registration(server, udid, deviceName, lists, adds);
      var received := server.devices(lists).Some?;
      && lists < o.lists <= lists + 1 + LOOKUP_ATTEMPTS
      && o.adds == (if received && !SeenDevice(server.devices(lists).value, udid) then adds + 1 else adds)
      && (o.result.Ok? ==> NonEmptyId(o.result.value.id) && EqIgnoreAsciiCase(o.result.value.udid, udid))
      && (o.result.Ok? && (o.lists > lists + 1 || o.adds == adds) ==>
            && server.devices(o.lists - 1).Some?
            && DeviceMatches(server.devices(o.lists - 1).value, udid) == [o.result.value])
      && (o.result.Err? && o.result.error.DeviceUdidAmbiguous? ==>
            && server.devices(o.lists - 1).Some?
            && |DeviceMatches(server.devices(o.lists - 1).value, udid)| == o.result.error.matches > 1)
      && (o.result.Err? && o.result.error.DeviceNotVisible? ==>
            && o.lists == lists + 1 + LOOKUP_ATTEMPTS && received
            && forall n :: lists <= n < o.lists ==> NoMatch(server.devices, DeviceMatcher(udid), n))
      && (o.result.Err? && o.result.error == RequestFailed ==> !received || server.addDevice(adds).None?)
  {
    hide EqIgnoreAsciiCase, NonEmptyId, DeviceMatches, SeenDevice, Poll;
    SameIgnoringCase(udid);
    var o := Registration(server, udid, deviceName, lists, adds);
    DeviceLookupOutcome(server, udid, lists + 1, o.adds);
    if server.devices(lists).Some? {
      var first := server.devices(lists).value;
      var matches := DeviceMatches(first, udid);
      MatchIsSeen(first, udid);
      DeviceMatchesMatch(first, udid);
      assert |matches| == 1 ==> matches == [matches[0]] && matches[0] in matches;
      assert |matches| == 0 ==> NoMatch(server.devices, DeviceMatcher(udid), lists);
    }
  }

  lemma MatchIsSeen(devices: seq<DeviceRecord>, udid: string)
    ensures DeviceMatches(devices, udid) != [] ==> SeenDevice(devices, udid)
  {
    hide EqIgnoreAsciiCase, NonEmptyId, DeviceMatches;
    DeviceMatchesMatch(devices, udid);
    var matches := DeviceMatches(devices, udid);
    assert matches != [] ==> matches[0] in matches;
  }

  lemma DeviceLookupOutcome(server: Server, udid: string, lists: nat, adds: nat)
    ensures
      var o := DeviceLookup(server, udid, lists, adds);
      && lists < o.lists <= lists + LOOKUP_ATTEMPTS && o.adds == adds
      && (o.result.Ok? ==>
            && server.devices(o.lists - 1).Some?
            && DeviceMatches(server.devices(o.lists - 1).value, udid) == [o.result.value]
            && NonEmptyId(o.result.value.id) && EqIgnoreAsciiCase(o.result.value.udid, udid))
      && (o.result.Err? ==> o.result.error.DeviceUdidAmbiguous? || o.result.error.DeviceNotVisible?)
      && (o.result.Err? && o.result.error.DeviceUdidAmbiguous? ==>
            && server.devices(o.lists - 1).Some?
            && |DeviceMatches(server.devices(o.lists - 1).value, udid)| == o.result.error.matches > 1)
      && (o.result.Err? && o.result.error.DeviceNotVisible? ==>
            && o.lists == lists + LOOKUP_ATTEMPTS
            && forall n :: lists <= n < o.lists ==> NoMatch(server.devices, DeviceMatcher(udid), n))
  {
    hide EqIgnoreAsciiCase, NonEmptyId, DeviceMatches;
    PollExact(server.devices, DeviceMatcher(udid), lists, LOOKUP_ATTEMPTS);
    var o := DeviceLookup(server, udid, lists, adds);
    if o.result.Ok? {
      var last := server.devices(o.lists - 1).value;
      DeviceMatchesMatch(last, udid);
      assert o.result.value in DeviceMatches(last, udid);
    }
  }

  lemma SameIgnoringCase(a: string)
    ensures EqIgnoreAsciiCase(a, a)
  {
  }

  // ----- Uploading a CSR -----

  function CertificateLookup(server: Server, name: string, lists: nat, adds: nat): Outcome<CertificateRecord> {
    var (polled, next) := Poll(server.certificates, CertificateMatcher(name), lists, LOOKUP_ATTEMPTS);
    match polled
    case Found(c) => Outcome(Ok(c), next, adds)
    case Ambiguous(n) => Outcome(Err(CertificateNameAmbiguous(n)), next, adds)
    case NotVisible => Outcome(Err(CertificateNotVisible(LOOKUP_ATTEMPTS)), next, adds)
  }

  predicate CompleteCertificate(c: CertificateRecord) {
    NonEmptyId(c.id) && c.url != ""
  }

  function DirectCertificate(reply: Reply<CertificateRecord>): Option<Result<CertificateRecord, AgcError>> {
    if reply.status == QuotaReached then Some(Err(Quota))
    else if reply.duplicate then None
    else if reply.status == RejectedCode then Some(Err(Rejected))
    else if reply.record.None? then Some(Err(InvalidPayload))
    else if CompleteCertificate(reply.record.value) then Some(Ok(reply.record.value))
    else None
  }

  function Uploading(server: Server, name: string, lists: nat, adds: nat): Outcome<CertificateRecord> {
    if server.addCertificate(adds).None? then Outcome(Err(RequestFailed), lists, adds + 1)
    else
      var direct := DirectCertificate(server.addCertificate(adds).value);
      if direct.Some? then Outcome(direct.value, lists, adds + 1)
      else CertificateLookup(server, name, lists, adds + 1)
  }

  /** Whatever the service answers: one add and at most five lists. A returned record is complete,
      and is the only complete certificate of that name in the last list unless it is the add's own
      answer. A duplicate name is looked up, a reached quota is not. */
  lemma UploadOutcome(server: Server, name: string, lists: nat, adds: nat)
    ensures
      var o := Uploading(server, name, lists, adds);
      && o.adds == adds + 1 && lists <= o.lists <= lists + LOOKUP_ATTEMPTS
      && (o.result.Ok? ==> CompleteCertificate(o.result.value))
      && (o.result.Ok? && o.lists > lists ==>
            && server.certificates(o.lists - 1).Some?
            && CertificateMatches(server.certificates(o.lists - 1).value, name) == [o.result.value])
      && (o.result.Err? && o.result.error.CertificateNameAmbiguous? ==>
            && o.lists > lists && server.certificates(o.lists - 1).Some?
            && |CertificateMatches(server.certificates(o.lists - 1).value, name)| == o.result.error.matches > 1)
      && (o.result.Err? && o.result.error.CertificateNotVisible? ==>
            && o.lists == lists + LOOKUP_ATTEMPTS
            && forall n :: lists <= n < o.lists ==> NoMatch(server.certificates, CertificateMatcher(name), n))
      && (server.addCertificate(adds).Some? ==>
            var reply := server.addCertificate(adds).value;
            && (reply.status == QuotaReached ==> o.result == Err(Quota) && o.lists == lists)
            && (reply.duplicate ==> (o.lists > lists <==> reply.status != QuotaReached)))
  {
    hide NonEmptyId, CertificateMatches;
    PollExact(server.certificates, CertificateMatcher(name), lists, LOOKUP_ATTEMPTS);
    var o := Uploading(server, name, lists, adds);
    if o.lists > lists && server.certificates(o.lists - 1).Some? {
      CertificateMatchesMatch(server.certificates(o.lists - 1).value, name);
      var last := CertificateMatches(server.certificates(o.lists - 1).value, name);
      assert o.result.Ok? && last == [o.result.value] ==> o.result.value in last;
    }
  }

  // ----- The outcomes in full -----

  /** ASCII letters agree up to bit 5, everything else exactly. */
  lemma CaseExactly(a: string, b: string)
    ensures EqIgnoreAsciiCase(a, b) <==>
      |a| == |b| && forall i :: 0 <= i < |a| ==>
        || a[i] == b[i]
        || ('A' <= a[i] <= 'Z' && b[i] as int == a[i] as int + 32)
        || ('A' <= b[i] <= 'Z' && a[i] as int == b[i] as int + 32)
  {
  }

  /** Every complete record counts, equal ones too. */
  lemma DeviceMatchesSteps(devices: seq<DeviceRecord>, d: DeviceRecord, udid: string)
    ensures DeviceMatches([], udid) == []
    ensures DeviceMatches(devices + [d], udid)
         == DeviceMatches(devices, udid)
            + if EqIgnoreAsciiCase(d.udid, udid) && d.id.Some? && d.id.value != "" then [d] else []
  {
    hide EqIgnoreAsciiCase;
    assert (devices + [d])[..|devices|] == devices;
  }

  lemma CertificateMatchesSteps(certificates: seq<CertificateRecord>, c: CertificateRecord, name: string)
    ensures CertificateMatches([], name) == []
    ensures CertificateMatches(certificates + [c], name)
         == CertificateMatches(certificates, name)
            + if c.certName == name && c.id.Some? && c.id.value != "" && c.url != "" then [c] else []
  {
    assert (certificates + [c])[..|certificates|] == certificates;
  }

  /** Up to five lists from number `from` on: the first received one with a match decides. */
  predicate LookedUp<T(==)>(answers: nat -> Option<seq<T>>, matches: seq<T> -> seq<T>, from: nat, o: Outcome<T>,
                        several: nat -> AgcError, none: AgcError)
  {
    && from < o.lists <= from + 5
    && (forall n :: from <= n < o.lists - 1 ==> NoMatch(answers, matches, n))
    && if NoMatch(answers, matches, o.lists - 1) then o.lists == from + 5 && o.result == Err(none)
       else
         var last := matches(answers(o.lists - 1).value);
         o.result == if |last| == 1 then Ok(last[0]) else Err(several(|last|))
  }

  ghost predicate DeviceLookedUp(server: Server, udid: string, from: nat, o: Outcome<DeviceRecord>) {
    LookedUp(server.devices, DeviceMatcher(udid), from, o, (n: nat) => DeviceUdidAmbiguous(n), DeviceNotVisible(5))
  }

  ghost predicate CertificateLookedUp(server: Server, name: string, from: nat, o: Outcome<CertificateRecord>) {
    LookedUp(server.certificates, CertificateMatcher(name), from, o, (n: nat) => CertificateNameAmbiguous(n),
             CertificateNotVisible(5))
  }

  lemma DeviceLookupExactly(server: Server, udid: string, lists: nat, adds: nat)
    ensures var o := DeviceLookup(server, udid, lists, adds); o.adds == adds && DeviceLookedUp(server, udid, lists, o)
  {
    hide DeviceMatches;
    PollExact(server.devices, DeviceMatcher(udid), lists, LOOKUP_ATTEMPTS);
  }

  lemma CertificateLookupExactly(server: Server, name: string, lists: nat, adds: nat)
    ensures
      var o := CertificateLookup(server, name, lists, adds);
      o.adds == adds && CertificateLookedUp(server, name, lists, o)
  {
    hide CertificateMatches;
    PollExact(server.certificates, CertificateMatcher(name), lists, LOOKUP_ATTEMPTS);
  }

  /** The answer names this device, or none, and has an id. */
  predicate AnswersFor(d: DeviceRecord, udid: string) {
    d.id.Some? && d.id.value != "" && (d.udid == "" || EqIgnoreAsciiCase(d.udid, udid))
  }

  /** Every case of a registration: the one complete record of the first list is returned; a record that is not
      complete, a duplicate and an answer for another device are looked up; a rejection and an empty answer are
      errors; and what an answer leaves out is filled in from the request. */
  lemma RegistrationExactly(server: Server, udid: string, deviceName: string, lists: nat, adds: nat)
    ensures
      var o := Registration(server, udid, deviceName, lists, adds);
      if server.devices(lists).None? then o == Outcome(Err(RequestFailed), lists + 1, adds)
      else
        var first := server.devices(lists).value;
        var matches := DeviceMatches(first, udid);
        if |matches| > 1 then o == Outcome(Err(DeviceUdidAmbiguous(|matches|)), lists + 1, adds)
        else if |matches| == 1 then o == Outcome(Ok(matches[0]), lists + 1, adds)
        else if exists d :: d in first && EqIgnoreAsciiCase(d.udid, udid) then
          o.adds == adds && DeviceLookedUp(server, udid, lists + 1, o)
        else if server.addDevice(adds).None? then o == Outcome(Err(RequestFailed), lists + 1, adds + 1)
        else
          var reply := server.addDevice(adds).value;
          if !reply.duplicate && reply.status != Accepted then o == Outcome(Err(Rejected), lists + 1, adds + 1)
          else if !reply.duplicate && reply.record.None? then o == Outcome(Err(InvalidPayload), lists + 1, adds + 1)
          else if !reply.duplicate && AnswersFor(reply.record.value, udid) then
            && o.result.Ok? && o.lists == lists + 1 && o.adds == adds + 1
            && var d, r := reply.record.value, o.result.value;
               && r.id == d.id && r.udid == (if d.udid == "" then udid else d.udid)
               && r.deviceName == if d.deviceName == "" then deviceName else d.deviceName
          else o.adds == adds + 1 && DeviceLookedUp(server, udid, lists + 1, o)
  {
    hide EqIgnoreAsciiCase, DeviceMatches, DeviceLookup, DeviceLookedUp;
    DeviceLookupExactly(server, udid, lists + 1, adds);
    DeviceLookupExactly(server, udid, lists + 1, adds + 1);
  }

  /** Every case of an upload. */
  lemma UploadExactly(server: Server, name: string, lists: nat, adds: nat)
    ensures
      var o := Uploading(server, name, lists, adds);
      && o.adds == adds + 1
      && if server.addCertificate(adds).None? then o.result == Err(RequestFailed) && o.lists == lists
         else
           var reply := server.addCertificate(adds).value;
           if reply.status == QuotaReached then o.result == Err(Quota) && o.lists == lists
           else if !reply.duplicate && reply.status == RejectedCode then o.result == Err(Rejected) && o.lists == lists
           else if !reply.duplicate && reply.record.None? then o.result == Err(InvalidPayload) && o.lists == lists
           else if !reply.duplicate && reply.record.value.id.Some? && reply.record.value.id.value != ""
                   && reply.record.value.url != "" then
             o.result == Ok(reply.record.value) && o.lists == lists
           else CertificateLookedUp(server, name, lists, o)
  {
    hide CertificateMatches, CertificateLookup, CertificateLookedUp;
    CertificateLookupExactly(server, name, lists, adds + 1);
  }

  // ----- The client -----

  /** The client and how many requests of either kind it has sent. */
  class AgcClient {
    const server: Server
    var lists: nat
    var adds: nat

    constructor (server: Server)
      ensures this.server == server && lists == 0 && adds == 0
    {
      this.server := server;
      lists, adds := 0, 0;
    }

    method ListDevices() returns (r: Option<seq<DeviceRecord>>)
      modifies this
      ensures r == server.devices(old(lists)) && lists == old(lists) + 1 && adds == old(adds)
    {
      r := server.devices(lists);
      lists := lists + 1;
    }

    /** `register_device`. */
    method RegisterDevice(udid: string, deviceName: string) returns (r: Result<DeviceRecord, AgcError>)
      modifies this
      ensures Outcome(r, lists, adds) == Registration(server, udid, deviceName, old(lists), old(adds))
    {
      hide EqIgnoreAsciiCase, NonEmptyId, DeviceMatches, DeviceLookup;
      var initial := ListDevices();
      if initial.None? {
        return Err(RequestFailed);
      }
      var unique := UniqueCompleteDevice(initial.value, udid);
      if unique.Err? {
        return Err(unique.error);
      }
      if unique.value.Some? {
        return Ok(unique.value.value);
      }
      var existing := exists i :: 0 <= i < |initial.value| && EqIgnoreAsciiCase(initial.value[i].udid, udid);
      assert existing <==> SeenDevice(initial.value, udid) by {
        if existing {
          var i :| 0 <= i < |initial.value| && EqIgnoreAsciiCase(initial.value[i].udid, udid);
          assert initial.value[i] in initial.value;
        }
      }
      if !existing {
        var reply := server.addDevice(adds);
        adds := adds + 1;
        if reply.None? {
          return Err(RequestFailed);
        }
        var status, duplicate := reply.value.status, reply.value.duplicate;
        if status != Accepted && !duplicate {
          return Err(Rejected);
        }
        if !duplicate {
          if reply.value.record.None? {
            return Err(InvalidPayload);
          }
          var direct := reply.value.record.value;
          if NonEmptyId(direct.id) && (direct.udid == "" || EqIgnoreAsciiCase(direct.udid, udid)) {
            if direct.udid == "" {
              direct := direct.(udid := udid);
            }
            if direct.deviceName == "" {
              direct := direct.(deviceName := deviceName);
            }
            return Ok(direct);
          }
        }
      }
      r := LookUpDevice(udid);
    }

    method LookUpDevice(udid: string) returns (r: Result<DeviceRecord, AgcError>)
      modifies this
      ensures Outcome(r, lists, adds) == DeviceLookup(server, udid, old(lists), old(adds))
    {
      hide DeviceMatches;
      for attempt := 0 to LOOKUP_ATTEMPTS
        invariant adds == old(adds)
        invariant Poll(server.devices, DeviceMatcher(udid), old(lists), LOOKUP_ATTEMPTS)
               == Poll(server.devices, DeviceMatcher(udid), lists, LOOKUP_ATTEMPTS - attempt)
      {
        var listed := ListDevices();
        if listed.Some? {
          var found := UniqueCompleteDevice(listed.value, udid);
          if found.Err? {
            return Err(found.error);
          }
          if found.value.Some? {
            return Ok(found.value.value);
          }
        }
      }
      return Err(DeviceNotVisible(LOOKUP_ATTEMPTS));
    }

    /** `upload_csr`. */
    method UploadCsr(name: string) returns (r: Result<CertificateRecord, AgcError>)
      modifies this
      ensures Outcome(r, lists, adds) == Uploading(server, name, old(lists), old(adds))
    {
      hide NonEmptyId, CertificateMatches;
      var reply := server.addCertificate(adds);
      adds := adds + 1;
      if reply.None? {
        return Err(RequestFailed);
      }
      var status, duplicate := reply.value.status, reply.value.duplicate;
      if status == QuotaReached {
        return Err(Quota);
      }
      if status == RejectedCode && !duplicate {
        return Err(Rejected);
      }
      if !duplicate {
        if reply.value.record.None? {
          return Err(InvalidPayload);
        }
        if CompleteCertificate(reply.value.record.value) {
          return Ok(reply.value.record.value);
        }
      }
      for attempt := 0 to LOOKUP_ATTEMPTS
        invariant adds == old(adds) + 1
        invariant Poll(server.certificates, CertificateMatcher(name), old(lists), LOOKUP_ATTEMPTS)
               == Poll(server.certificates, CertificateMatcher(name), lists, LOOKUP_ATTEMPTS - attempt)
      {
        var listed := server.certificates(lists);
        lists := lists + 1;
        if listed.Some? {
          var matches := CertificateMatches(listed.value, name);
          if |matches| == 1 {
            return Ok(matches[0]);
          }
          if |matches| > 1 {
            return Err(CertificateNameAmbiguous(|matches|));
          }
        }
      }
      return Err(CertificateNotVisible(LOOKUP_ATTEMPTS));
    }
  }
}
