/** Secure-element provisioning: enrollment, challenge response and status over a device table and
    Redis records that expire. Calls run concurrently; each event is one atomic Redis or database step. */
module Provisioning {
  import opened Sequences

  type DeviceId = string
  type TenantId = string

  const ENROLLMENT_TTL_MS := 30 * 60 * 1000

  // ---------- data

  datatype Status = Enrolled | Provisioned

  datatype Device = Device(tenant: TenantId, serial: string, status: Status)

  /** The enrollment record kept in Redis. */
  datatype Record = Record(tenant: TenantId, challenge: string, deadline: nat)

  datatype EnrollRequest = EnrollRequest(serial: string, manufacturer: string, model: string, deviceType: string)

  /** None stands for an identifier that does not parse, or a missing or non-text response. */
  datatype ProvisionRequest = ProvisionRequest(
    device: Option<DeviceId>, tenant: Option<TenantId>, response: Option<string>)

  datatype Error =
    | MissingFields | SerialExists | CreateFailed
    | InvalidDevice | InvalidTenant | NoEnrollment | TenantMismatch | MissingResponse | ResponseMismatch
    | DeviceNotFound | UpdateFailed

  datatype EnrollPhase =
    | Searched
    | Created(id: DeviceId)
    | Returned(id: DeviceId, stored: Option<Record>, storedAt: nat)
    | EnrollError(error: Error)

  /** `seen` is the record read by GET at time `at`. */
  datatype ProvisionPhase =
    | Matched(id: DeviceId, seen: Record, at: nat)
    | Loaded(id: DeviceId, seen: Record, at: nat, row: Device)
    | Updated(id: DeviceId, seen: Record, at: nat)
    | Succeeded(id: DeviceId, seen: Record, at: nat)
    | ProvisionError(error: Error)

  datatype Reported = Pending | Row(status: Status)

  datatype QueryPhase = NoRecord | Answered(reported: Reported) | QueryError(error: Error)

  datatype Call =
    | Enroll(req: EnrollRequest, tenant: TenantId, enrolling: EnrollPhase)
    | Provision(preq: ProvisionRequest, provisioning: ProvisionPhase)
    | Query(device: DeviceId, existsOk: bool, query: QueryPhase)

  datatype State = State(now: nat, redis: map<DeviceId, Record>, db: map<DeviceId, Device>, calls: seq<Call>)

  datatype Event =
    | Tick(ms: nat)
    | EnrollSearch(req: EnrollRequest, tenant: TenantId, dbOk: bool)
    | EnrollCreate(call: nat, id: DeviceId, dbOk: bool)
    | EnrollStore(call: nat, challenge: string, setOk: bool)
    | ProvisionGet(preq: ProvisionRequest, getOk: bool)
    | ProvisionLoad(call: nat, dbOk: bool)
    | ProvisionUpdate(call: nat, dbOk: bool)
    | ProvisionDelete(call: nat, delOk: bool)
    | StatusExists(device: DeviceId, existsOk: bool)
    | StatusLoad(call: nat, dbOk: bool)

  // ---------- single steps

  predicate Live(s: State, id: DeviceId) {
    id in s.redis && s.now < s.redis[id].deadline
  }

  predicate SerialTaken(db: map<DeviceId, Device>, serial: string) {
    exists id :: id in db && db[id].serial == serial
  }

  predicate SerialTakenBy(db: map<DeviceId, Device>, serial: string, tenant: TenantId) {
    exists id :: id in db && db[id].serial == serial && db[id].tenant == tenant
  }

  predicate Complete(req: EnrollRequest) {
    req.serial != "" && req.manufacturer != "" && req.model != "" && req.deviceType != ""
  }

  /** A failed search counts as not found. */
  function SearchOutcome(s: State, req: EnrollRequest, tenant: TenantId, dbOk: bool): EnrollPhase {
    if !Complete(req) then EnrollError(MissingFields)
    else if dbOk && SerialTakenBy(s.db, req.serial, tenant) then EnrollError(SerialExists)
    else Searched
  }

  /** A failed EXISTS counts as no record. */
  function ExistsOutcome(s: State, id: DeviceId, existsOk: bool): QueryPhase {
    if existsOk && Live(s, id) then Answered(Pending) else NoRecord
  }

  function GetOutcome(s: State, req: ProvisionRequest, getOk: bool, hash: string -> string): ProvisionPhase {
    if req.device.None? then ProvisionError(InvalidDevice)
    else if req.tenant.None? then ProvisionError(InvalidTenant)
    else if !getOk || !Live(s, req.device.value) then ProvisionError(NoEnrollment)
    else
      var seen := s.redis[req.device.value];
      if seen.tenant != req.tenant.value then ProvisionError(TenantMismatch)
      else if req.response.None? || req.response.value == "" then ProvisionError(MissingResponse)
      else if req.response.value != hash(seen.challenge) then ProvisionError(ResponseMismatch)
      else Matched(req.device.value, seen, s.now)
  }

  function WithCall(s: State, i: nat, c: Call): State
    requires i < |s.calls|
  {
    s.(calls := s.calls[i := c])
  }

  function NewCall(s: State, c: Call): State {
    s.(calls := s.calls + [c])
  }

  /** The unique index on serial numbers spans all tenants. */
  function CreateStep(s: State, i: nat, id: DeviceId, dbOk: bool): State
    requires i < |s.calls| && s.calls[i].Enroll?
  {
    var c := s.calls[i];
    if !dbOk || id in s.db || SerialTaken(s.db, c.req.serial) then
      WithCall(s, i, c.(enrolling := EnrollError(CreateFailed)))
    else
      WithCall(s, i, c.(enrolling := Created(id))).(db := s.db[id := Device(c.tenant, c.req.serial, Enrolled)])
  }

  /** A failed SET is only logged: the enrollment returns without a record. */
  function StoreStep(s: State, i: nat, challenge: string, setOk: bool): State
    requires i < |s.calls| && s.calls[i].Enroll? && s.calls[i].enrolling.Created?
  {
    var c := s.calls[i];
    var id, rec := c.enrolling.id, Record(c.tenant, challenge, s.now + ENROLLMENT_TTL_MS);
    if setOk then WithCall(s, i, c.(enrolling := Returned(id, Some(rec), s.now))).(redis := s.redis[id := rec])
    else WithCall(s, i, c.(enrolling := Returned(id, None, s.now)))
  }

  function LoadStep(s: State, i: nat, dbOk: bool): State
    requires i < |s.calls| && s.calls[i].Provision? && s.calls[i].provisioning.Matched?
  {
    var c := s.calls[i];
    var p := c.provisioning;
    if dbOk && p.id in s.db then WithCall(s, i, c.(provisioning := Loaded(p.id, p.seen, p.at, s.db[p.id])))
    else WithCall(s, i, c.(provisioning := ProvisionError(DeviceNotFound)))
  }

  /** The whole loaded row is written back with its new status. */
  function UpdateStep(s: State, i: nat, dbOk: bool): State
    requires i < |s.calls| && s.calls[i].Provision? && s.calls[i].provisioning.Loaded?
  {
    var c := s.calls[i];
    var p := c.provisioning;
    if dbOk then
      WithCall(s, i, c.(provisioning := Updated(p.id, p.seen, p.at)))
        .(db := s.db[p.id := p.row.(status := Provisioned)])
    else WithCall(s, i, c.(provisioning := ProvisionError(UpdateFailed)))
  }

  /** The outcome of DEL is ignored. */
  function DeleteStep(s: State, i: nat, delOk: bool): State
    requires i < |s.calls| && s.calls[i].Provision? && s.calls[i].provisioning.Updated?
  {
    var c := s.calls[i];
    var p := c.provisioning;
    WithCall(s, i, c.(provisioning := Succeeded(p.id, p.seen, p.at)))
      .(redis := if delOk then s.redis - {p.id} else s.redis)
  }

  function AnswerStep(s: State, i: nat, dbOk: bool): State
    requires i < |s.calls| && s.calls[i].Query? && s.calls[i].query.NoRecord?
  {
    var c := s.calls[i];
    if dbOk && c.device in s.db then WithCall(s, i, c.(query := Answered(Row(s.db[c.device].status))))
    else WithCall(s, i, c.(query := QueryError(DeviceNotFound)))
  }

  /** An event that does not fit the state of its call changes nothing. */
  function Step(s: State, e: Event, hash: string -> string): State {
    match e
    case Tick(ms) => s.(now := s.now + ms)
    case EnrollSearch(req, tenant, dbOk) => NewCall(s, Enroll(req, tenant, SearchOutcome(s, req, tenant, dbOk)))
    case EnrollCreate(i, id, dbOk) =>
      if i < |s.calls| && s.calls[i].Enroll? && s.calls[i].enrolling.Searched? then CreateStep(s, i, id, dbOk) else s
    case EnrollStore(i, challenge, setOk) =>
      if i < |s.calls| && s.calls[i].Enroll? && s.calls[i].enrolling.Created? then StoreStep(s, i, challenge, setOk)
      else s
    case ProvisionGet(req, getOk) => NewCall(s, Provision(req, GetOutcome(s, req, getOk, hash)))
    case ProvisionLoad(i, dbOk) =>
      if i < |s.calls| && s.calls[i].Provision? && s.calls[i].provisioning.Matched? then LoadStep(s, i, dbOk) else s
    case ProvisionUpdate(i, dbOk) =>
      if i < |s.calls| && s.calls[i].Provision? && s.calls[i].provisioning.Loaded? then UpdateStep(s, i, dbOk) else s
    case ProvisionDelete(i, delOk) =>
      if i < |s.calls| && s.calls[i].Provision? && s.calls[i].provisioning.Updated? then DeleteStep(s, i, delOk) else s
    case StatusExists(id, existsOk) => NewCall(s, Query(id, existsOk, ExistsOutcome(s, id, existsOk)))
    case StatusLoad(i, dbOk) =>
      if i < |s.calls| && s.calls[i].Query? && s.calls[i].query.NoRecord? then AnswerStep(s, i, dbOk) else s
  }

  function Run(s: State, events: seq<Event>, hash: string -> string): State {
    if events == [] then s
    else Step(Run(s, events[..|events| - 1], hash), events[|events| - 1], hash)
  }

  function Init(start: nat): State {
    State(start, map[], map[], [])
  }

  // ---------- the invariant

  predicate InCreated(c: Call, id: DeviceId) {
    c.Enroll? && c.enrolling == Created(id)
  }

  /** The enrollment of `id` stored `rec`, to live for thirty minutes. */
  predicate Stored(c: Call, id: DeviceId, rec: Record) {
    && c.Enroll? && c.enrolling.Returned? && c.enrolling.id == id && c.enrolling.stored == Some(rec)
    && rec.tenant == c.tenant && rec.deadline == c.enrolling.storedAt + 1800000
  }

  predicate HasWritten(c: Call, id: DeviceId) {
    c.Provision? && (c.provisioning.Updated? || c.provisioning.Succeeded?) && c.provisioning.id == id
  }

  /** The device row exists and its enrollment is past its SET. */
  ghost predicate Settled(s: State, id: DeviceId) {
    id in s.db && forall i :: 0 <= i < |s.calls| ==> !InCreated(s.calls[i], id)
  }

  /** The request carries the tenant and the hashed challenge of the record, which was live when read. */
  predicate Answers(req: ProvisionRequest, id: DeviceId, seen: Record, at: nat, hash: string -> string) {
    && req.device == Some(id) && req.tenant == Some(seen.tenant)
    && req.response == Some(hash(seen.challenge)) && hash(seen.challenge) != ""
    && at < seen.deadline
  }

  /** `rec` was stored for `id` by the enrollment that created its row. */
  ghost predicate Genuine(s: State, id: DeviceId, rec: Record) {
    && Settled(s, id) && s.db[id].tenant == rec.tenant
    && exists i :: 0 <= i < |s.calls| && Stored(s.calls[i], id, rec)
  }

  ghost predicate RecordsGenuine(s: State) {
    forall id :: id in s.redis ==> Genuine(s, id, s.redis[id])
  }

  ghost predicate CreatedDistinct(s: State) {
    && (forall i :: 0 <= i < |s.calls| && s.calls[i].Enroll? && s.calls[i].enrolling.Created? ==>
         s.calls[i].enrolling.id in s.db
         && s.db[s.calls[i].enrolling.id].tenant == s.calls[i].tenant)
    && (forall i, j :: 0 <= i < j < |s.calls| && s.calls[i].Enroll? && s.calls[i].enrolling.Created? ==>
         !InCreated(s.calls[j], s.calls[i].enrolling.id))
  }

  ghost predicate CallOk(s: State, c: Call, hash: string -> string) {
    c.Provision? && !c.provisioning.ProvisionError? ==>
      var p := c.provisioning;
      && Answers(c.preq, p.id, p.seen, p.at, hash)
      && Genuine(s, p.id, p.seen)
      && (p.Loaded? ==> p.row.tenant == s.db[p.id].tenant && p.row.serial == s.db[p.id].serial)
      && (HasWritten(c, p.id) ==> s.db[p.id].status == Provisioned)
  }

  ghost predicate CallsOk(s: State, hash: string -> string) {
    forall i :: 0 <= i < |s.calls| ==> CallOk(s, s.calls[i], hash)
  }

  ghost predicate ProvisionedByCall(s: State) {
    forall id :: id in s.db && s.db[id].status == Provisioned ==>
      exists i :: 0 <= i < |s.calls| && HasWritten(s.calls[i], id)
  }

  ghost predicate SerialsUnique(s: State) {
    forall id, id' :: id in s.db && id' in s.db && s.db[id].serial == s.db[id'].serial ==> id == id'
  }

  ghost predicate Inv(s: State, hash: string -> string) {
    RecordsGenuine(s) && CreatedDistinct(s) && CallsOk(s, hash) && ProvisionedByCall(s) && SerialsUnique(s)
  }

  // ---------- what every step preserves

  /** Rows keep their tenant and serial, never lose the status provisioned, and settled devices stay
      settled; stored records stay on file. */
  ghost predicate Grows(s: State, t: State) {
    && s.now <= t.now && |s.calls| <= |t.calls|
    && (forall id :: id in s.db ==>
         id in t.db && t.db[id].tenant == s.db[id].tenant && t.db[id].serial == s.db[id].serial)
    && (forall id :: id in s.db && s.db[id].status == Provisioned ==> t.db[id].status == Provisioned)
    && (forall id :: Settled(s, id) ==> Settled(t, id))
    && (forall i :: 0 <= i < |s.calls| && s.calls[i].Enroll? && s.calls[i].enrolling.Returned? ==>
         t.calls[i] == s.calls[i])
    && (forall i, id :: 0 <= i < |s.calls| && HasWritten(s.calls[i], id) ==> HasWritten(t.calls[i], id))
  }

  /** `db'` only adds rows and moves statuses to provisioned. */
  ghost predicate DbGrows(db: map<DeviceId, Device>, db': map<DeviceId, Device>) {
    forall id :: id in db ==>
      && id in db' && db'[id].tenant == db[id].tenant && db'[id].serial == db[id].serial
      && (db[id].status == Provisioned ==> db'[id].status == Provisioned)
  }

  lemma NewCallGrows(s: State, c: Call)
    requires !(c.Enroll? && c.enrolling.Created?)
    ensures Grows(s, NewCall(s, c))
  {
    var t := NewCall(s, c);
    forall id | Settled(s, id) ensures Settled(t, id) {
      forall i | 0 <= i < |t.calls| ensures !InCreated(t.calls[i], id) {
        if i < |s.calls| { assert t.calls[i] == s.calls[i]; }
      }
    }
  }

  lemma ReplaceGrows(s: State, i: nat, c: Call, t: State)
    requires i < |s.calls| && t.now == s.now && t.calls == s.calls[i := c] && DbGrows(s.db, t.db)
    requires !(s.calls[i].Enroll? && s.calls[i].enrolling.Returned?)
    requires forall id :: HasWritten(s.calls[i], id) ==> HasWritten(c, id)
    requires forall id :: InCreated(c, id) ==> id !in s.db
    ensures Grows(s, t)
  {
    forall id | Settled(s, id) ensures Settled(t, id) {
      forall j | 0 <= j < |t.calls| ensures !InCreated(t.calls[j], id) {
        if j != i { assert t.calls[j] == s.calls[j]; }
      }
    }
  }

  lemma GenuineGrows(s: State, t: State, id: DeviceId, rec: Record)
    requires Grows(s, t) && Genuine(s, id, rec)
    ensures Genuine(t, id, rec)
  {
    var i :| 0 <= i < |s.calls| && Stored(s.calls[i], id, rec);
    assert t.calls[i] == s.calls[i];
  }

  lemma CallOkGrows(s: State, t: State, c: Call, hash: string -> string)
    requires Grows(s, t) && CallOk(s, c, hash)
    ensures CallOk(t, c, hash)
  {
    if c.Provision? && !c.provisioning.ProvisionError? {
      GenuineGrows(s, t, c.provisioning.id, c.provisioning.seen);
    }
  }

  // ---------- adding a call

  lemma NewCallKeeps(s: State, c: Call, hash: string -> string)
    requires Inv(s, hash) && CallOk(s, c, hash) && !(c.Enroll? && c.enrolling.Created?)
    ensures Inv(NewCall(s, c), hash)
  {
    var t := NewCall(s, c);
    NewCallGrows(s, c);
    forall id | id in t.redis ensures Genuine(t, id, t.redis[id]) { GenuineGrows(s, t, id, s.redis[id]); }
    forall i | 0 <= i < |t.calls| ensures CallOk(t, t.calls[i], hash) { CallOkGrows(s, t, t.calls[i], hash); }
    NewCallDistinct(s, c);
    forall id | id in t.db && t.db[id].status == Provisioned
      ensures exists i :: 0 <= i < |t.calls| && HasWritten(t.calls[i], id)
    {
      var i :| 0 <= i < |s.calls| && HasWritten(s.calls[i], id);
      assert HasWritten(t.calls[i], id);
    }
  }

  lemma NewCallDistinct(s: State, c: Call)
    requires CreatedDistinct(s) && !(c.Enroll? && c.enrolling.Created?)
    ensures CreatedDistinct(NewCall(s, c))
  {
  }

  // ---------- replacing a call

  /** The side conditions under which one call's step keeps the invariant. */
  ghost predicate GoodStep(s: State, i: nat, c: Call, t: State, hash: string -> string) {
    && i < |s.calls| && t.now == s.now && t.calls == s.calls[i := c] && DbGrows(s.db, t.db)
    && !(s.calls[i].Enroll? && s.calls[i].enrolling.Returned?)
    && (forall id :: HasWritten(s.calls[i], id) ==> HasWritten(c, id))
    && (forall id :: InCreated(c, id) ==> id !in s.db && id in t.db && t.db[id].tenant == c.tenant)
    && (forall id :: id in t.redis ==> (id in s.redis && t.redis[id] == s.redis[id]) || Genuine(t, id, t.redis[id]))
    && CallOk(t, c, hash)
    && (forall id :: id in t.db && t.db[id].status == Provisioned ==>
         (id in s.db && s.db[id].status == Provisioned) || HasWritten(c, id))
    && SerialsUnique(t)
  }

  lemma GoodStepKeeps(s: State, i: nat, c: Call, t: State, hash: string -> string)
    requires Inv(s, hash) && GoodStep(s, i, c, t, hash)
    ensures Inv(t, hash) && Grows(s, t)
  {
    ReplaceGrows(s, i, c, t);
    forall id | id in t.redis ensures Genuine(t, id, t.redis[id]) {
      if id in s.redis && t.redis[id] == s.redis[id] { GenuineGrows(s, t, id, s.redis[id]); }
    }
    forall j | 0 <= j < |t.calls| ensures CallOk(t, t.calls[j], hash) {
      if j != i { CallOkGrows(s, t, s.calls[j], hash); }
    }
    GoodStepDistinct(s, i, c, t);
    forall id | id in t.db && t.db[id].status == Provisioned
      ensures exists j :: 0 <= j < |t.calls| && HasWritten(t.calls[j], id)
    {
      if id in s.db && s.db[id].status == Provisioned {
        var j :| 0 <= j < |s.calls| && HasWritten(s.calls[j], id);
        assert HasWritten(t.calls[j], id);
      } else {
        assert HasWritten(t.calls[i], id);
      }
    }
  }

  lemma GoodStepDistinct(s: State, i: nat, c: Call, t: State)
    requires CreatedDistinct(s) && i < |s.calls| && t.calls == s.calls[i := c] && DbGrows(s.db, t.db)
    requires forall id :: InCreated(c, id) ==> id !in s.db && id in t.db && t.db[id].tenant == c.tenant
    ensures CreatedDistinct(t)
  {
    forall j, k | 0 <= j < k < |t.calls| && t.calls[j].Enroll? && t.calls[j].enrolling.Created?
      ensures !InCreated(t.calls[k], t.calls[j].enrolling.id)
    {
      if j == i {
        assert InCreated(c, c.enrolling.id);
        assert t.calls[k] == s.calls[k];
      } else if k == i {
        assert t.calls[j] == s.calls[j];
      } else {
        assert t.calls[j] == s.calls[j] && t.calls[k] == s.calls[k];
      }
    }
    forall j | 0 <= j < |t.calls| && t.calls[j].Enroll? && t.calls[j].enrolling.Created?
      ensures t.calls[j].enrolling.id in t.db && t.db[t.calls[j].enrolling.id].tenant == t.calls[j].tenant
    {
      if j == i { assert InCreated(c, c.enrolling.id); }
    }
  }

  // ---------- the steps

  lemma CreateKeeps(s: State, i: nat, id: DeviceId, dbOk: bool, hash: string -> string)
    requires Inv(s, hash) && i < |s.calls| && s.calls[i].Enroll? && s.calls[i].enrolling.Searched?
    ensures var t := CreateStep(s, i, id, dbOk); Inv(t, hash) && Grows(s, t)
  {
    var t := CreateStep(s, i, id, dbOk);
    GoodStepKeeps(s, i, t.calls[i], t, hash);
  }

  lemma StoreKeeps(s: State, i: nat, challenge: string, setOk: bool, hash: string -> string)
    requires Inv(s, hash) && i < |s.calls| && s.calls[i].Enroll? && s.calls[i].enrolling.Created?
    ensures var t := StoreStep(s, i, challenge, setOk); Inv(t, hash) && Grows(s, t)
  {
    var t := StoreStep(s, i, challenge, setOk);
    var id := s.calls[i].enrolling.id;
    if setOk {
      forall j | 0 <= j < |t.calls| ensures !InCreated(t.calls[j], id) {
        if j != i { assert t.calls[j] == s.calls[j]; }
      }
      assert Stored(t.calls[i], id, t.redis[id]);
      assert Genuine(t, id, t.redis[id]);
    }
    GoodStepKeeps(s, i, t.calls[i], t, hash);
  }

  /** A provisioning call that fails before its write leaves everything else alone. */
  lemma FailKeeps(s: State, i: nat, error: Error, hash: string -> string)
    requires Inv(s, hash) && i < |s.calls| && s.calls[i].Provision?
    requires s.calls[i].provisioning.Matched? || s.calls[i].provisioning.Loaded?
    ensures var t := WithCall(s, i, s.calls[i].(provisioning := ProvisionError(error)));
      Inv(t, hash) && Grows(s, t)
  {
    var c := s.calls[i].(provisioning := ProvisionError(error));
    GoodStepKeeps(s, i, c, WithCall(s, i, c), hash);
  }

  lemma LoadKeeps(s: State, i: nat, dbOk: bool, hash: string -> string)
    requires Inv(s, hash) && i < |s.calls| && s.calls[i].Provision? && s.calls[i].provisioning.Matched?
    ensures var t := LoadStep(s, i, dbOk); Inv(t, hash) && Grows(s, t)
  {
    var t, p := LoadStep(s, i, dbOk), s.calls[i].provisioning;
    if dbOk && p.id in s.db {
      assert CallOk(s, s.calls[i], hash);
      ReplaceGrows(s, i, t.calls[i], t);
      GenuineGrows(s, t, p.id, p.seen);
      GoodStepKeeps(s, i, t.calls[i], t, hash);
    } else {
      FailKeeps(s, i, DeviceNotFound, hash);
    }
  }

  lemma UpdateKeeps(s: State, i: nat, dbOk: bool, hash: string -> string)
    requires Inv(s, hash) && i < |s.calls| && s.calls[i].Provision? && s.calls[i].provisioning.Loaded?
    ensures var t := UpdateStep(s, i, dbOk); Inv(t, hash) && Grows(s, t)
  {
    if dbOk {
      var t := UpdateStep(s, i, true);
      UpdateRows(s, i, hash);
      UpdateOk(s, i, hash);
      GoodStepKeeps(s, i, t.calls[i], t, hash);
    } else {
      FailKeeps(s, i, UpdateFailed, hash);
    }
  }

  lemma UpdateOk(s: State, i: nat, hash: string -> string)
    requires Inv(s, hash) && i < |s.calls| && s.calls[i].Provision? && s.calls[i].provisioning.Loaded?
    ensures CallOk(UpdateStep(s, i, true), UpdateStep(s, i, true).calls[i], hash)
  {
    var t, p := UpdateStep(s, i, true), s.calls[i].provisioning;
    UpdateRows(s, i, hash);
    ReplaceGrows(s, i, t.calls[i], t);
    GenuineGrows(s, t, p.id, p.seen);
  }

  /** The write changes only the status of the call's own row. */
  lemma UpdateRows(s: State, i: nat, hash: string -> string)
    requires Inv(s, hash) && i < |s.calls| && s.calls[i].Provision? && s.calls[i].provisioning.Loaded?
    ensures var t, p := UpdateStep(s, i, true), s.calls[i].provisioning;
      && CallOk(s, s.calls[i], hash) && p.id in s.db
      && t.db == s.db[p.id := s.db[p.id].(status := Provisioned)]
      && DbGrows(s.db, t.db) && SerialsUnique(t)
  {
    assert CallOk(s, s.calls[i], hash);
  }

  lemma DeleteKeeps(s: State, i: nat, delOk: bool, hash: string -> string)
    requires Inv(s, hash) && i < |s.calls| && s.calls[i].Provision? && s.calls[i].provisioning.Updated?
    ensures var t := DeleteStep(s, i, delOk); Inv(t, hash) && Grows(s, t)
  {
    var t := DeleteStep(s, i, delOk);
    assert CallOk(s, s.calls[i], hash);
    ReplaceGrows(s, i, t.calls[i], t);
    GenuineGrows(s, t, s.calls[i].provisioning.id, s.calls[i].provisioning.seen);
    GoodStepKeeps(s, i, t.calls[i], t, hash);
  }

  lemma AnswerKeeps(s: State, i: nat, dbOk: bool, hash: string -> string)
    requires Inv(s, hash) && i < |s.calls| && s.calls[i].Query? && s.calls[i].query.NoRecord?
    ensures var t := AnswerStep(s, i, dbOk); Inv(t, hash) && Grows(s, t)
  {
    var t := AnswerStep(s, i, dbOk);
    GoodStepKeeps(s, i, t.calls[i], t, hash);
  }

  lemma TickKeeps(s: State, t: State, hash: string -> string)
    requires Inv(s, hash) && s.now <= t.now && t == s.(now := t.now)
    ensures Inv(t, hash) && Grows(s, t)
  {
    assert forall id :: Settled(s, id) ==> Settled(t, id);
    forall id | id in t.redis ensures Genuine(t, id, t.redis[id]) { GenuineGrows(s, t, id, s.redis[id]); }
    forall i | 0 <= i < |t.calls| ensures CallOk(t, t.calls[i], hash) { CallOkGrows(s, t, s.calls[i], hash); }
  }

  lemma GetOk(s: State, req: ProvisionRequest, getOk: bool, hash: string -> string)
    requires Inv(s, hash)
    ensures CallOk(s, Provision(req, GetOutcome(s, req, getOk, hash)), hash)
  {
  }

  lemma CallKeeps(s: State, c: Call, hash: string -> string)
    requires Inv(s, hash) && CallOk(s, c, hash) && !(c.Enroll? && c.enrolling.Created?)
    ensures Inv(NewCall(s, c), hash) && Grows(s, NewCall(s, c))
  {
    NewCallKeeps(s, c, hash);
    NewCallGrows(s, c);
  }

  lemma EnrollKeeps(s: State, e: Event, hash: string -> string)
    requires Inv(s, hash) && (e.EnrollSearch? || e.EnrollCreate? || e.EnrollStore?)
    ensures Inv(Step(s, e, hash), hash) && Grows(s, Step(s, e, hash))
  {
    if Step(s, e, hash) == s {
    } else if e.EnrollSearch? {
      CallKeeps(s, Enroll(e.req, e.tenant, SearchOutcome(s, e.req, e.tenant, e.dbOk)), hash);
    } else if e.EnrollCreate? {
      CreateKeeps(s, e.call, e.id, e.dbOk, hash);
    } else {
      StoreKeeps(s, e.call, e.challenge, e.setOk, hash);
    }
  }

  lemma ProvisionKeeps(s: State, e: Event, hash: string -> string)
    requires Inv(s, hash) && (e.ProvisionGet? || e.ProvisionLoad? || e.ProvisionUpdate? || e.ProvisionDelete?)
    ensures Inv(Step(s, e, hash), hash) && Grows(s, Step(s, e, hash))
  {
    if Step(s, e, hash) == s {
    } else if e.ProvisionGet? {
      GetOk(s, e.preq, e.getOk, hash);
      CallKeeps(s, Provision(e.preq, GetOutcome(s, e.preq, e.getOk, hash)), hash);
    } else if e.ProvisionLoad? {
      LoadKeeps(s, e.call, e.dbOk, hash);
    } else if e.ProvisionUpdate? {
      UpdateKeeps(s, e.call, e.dbOk, hash);
    } else {
      DeleteKeeps(s, e.call, e.delOk, hash);
    }
  }

  lemma QueryKeeps(s: State, e: Event, hash: string -> string)
    requires Inv(s, hash) && (e.StatusExists? || e.StatusLoad?)
    ensures Inv(Step(s, e, hash), hash) && Grows(s, Step(s, e, hash))
  {
    if Step(s, e, hash) == s {
    } else if e.StatusExists? {
      CallKeeps(s, Query(e.device, e.existsOk, ExistsOutcome(s, e.device, e.existsOk)), hash);
    } else {
      AnswerKeeps(s, e.call, e.dbOk, hash);
    }
  }

  lemma StepKeeps(s: State, e: Event, hash: string -> string)
    requires Inv(s, hash)
    ensures Inv(Step(s, e, hash), hash) && Grows(s, Step(s, e, hash))
  {
    if e.Tick? {
      TickKeeps(s, Step(s, e, hash), hash);
    } else if e.EnrollSearch? || e.EnrollCreate? || e.EnrollStore? {
      EnrollKeeps(s, e, hash);
    } else if e.StatusExists? || e.StatusLoad? {
      QueryKeeps(s, e, hash);
    } else {
      ProvisionKeeps(s, e, hash);
    }
  }

  lemma {:induction false} RunKeeps(s: State, events: seq<Event>, hash: string -> string)
    requires Inv(s, hash)
    ensures Inv(Run(s, events, hash), hash)
  {
    if events != [] {
      var n := |events| - 1;
      RunKeeps(s, events[..n], hash);
      StepKeeps(Run(s, events[..n], hash), events[n], hash);
    }
  }

  /** A state some run reaches. */
  ghost predicate Reachable(s: State, hash: string -> string) {
    exists start, events :: s == Run(Init(start), events, hash)
  }

  lemma ReachableInv(s: State, hash: string -> string)
    requires Reachable(s, hash)
    ensures Inv(s, hash)
  {
    var start, events :| s == Run(Init(start), events, hash);
    RunKeeps(Init(start), events, hash);
  }

  // ---------- only answered challenges provision a device

  /** Call `i` is about to write `id`: it gave the tenant and the hashed challenge of the record that the
      enrollment of `id` stored, and that record was live when the call read it. */
  ghost predicate AnsweredChallenge(s: State, i: nat, id: DeviceId, hash: string -> string) {
    && i < |s.calls| && s.calls[i].Provision? && !s.calls[i].provisioning.ProvisionError?
    && var p := s.calls[i].provisioning;
    && p.id == id && Answers(s.calls[i].preq, id, p.seen, p.at, hash) && Genuine(s, id, p.seen)
  }

  /** A row turns provisioned only in the write step of a call that answered the stored challenge. */
  lemma ProvisionedOnlyByAnswer(s: State, e: Event, id: DeviceId, hash: string -> string)
    requires Reachable(s, hash)
    requires var t := Step(s, e, hash);
      id in t.db && t.db[id].status == Provisioned && !(id in s.db && s.db[id].status == Provisioned)
    ensures e.ProvisionUpdate? && e.dbOk && e.call < |s.calls| && s.calls[e.call].Provision?
    ensures s.calls[e.call].provisioning.Loaded? && AnsweredChallenge(s, e.call, id, hash)
  {
    ReachableInv(s, hash);
    assert e.ProvisionUpdate?;
    assert CallOk(s, s.calls[e.call], hash);
  }

  /** So every provisioned device has a call that answered its challenge. */
  lemma ProvisionedWasAnswered(s: State, id: DeviceId, hash: string -> string) returns (i: nat)
    requires Reachable(s, hash) && id in s.db && s.db[id].status == Provisioned
    ensures AnsweredChallenge(s, i, id, hash) && HasWritten(s.calls[i], id)
  {
    ReachableInv(s, hash);
    i :| 0 <= i < |s.calls| && HasWritten(s.calls[i], id);
    assert CallOk(s, s.calls[i], hash);
  }

  // ---------- once the record is gone, no new call succeeds

  /** Enrollment is over and no live record is left. */
  ghost predicate Over(s: State, id: DeviceId) {
    Settled(s, id) && !Live(s, id)
  }

  lemma OverStays(s: State, e: Event, id: DeviceId, hash: string -> string)
    requires Inv(s, hash) && Over(s, id)
    ensures Over(Step(s, e, hash), id)
  {
    StepKeeps(s, e, hash);
    NoLiveRecord(s, e, id, hash);
  }

  /** Records of settled devices are never written again. */
  lemma NoLiveRecord(s: State, e: Event, id: DeviceId, hash: string -> string)
    requires Over(s, id)
    ensures !Live(Step(s, e, hash), id)
  {
    if e.EnrollStore? && e.call < |s.calls| && s.calls[e.call].Enroll? && s.calls[e.call].enrolling.Created? {
      assert !InCreated(s.calls[e.call], id);
    }
  }

  predicate FailedFor(c: Call, id: DeviceId) {
    c.Provision? && c.preq.device == Some(id) ==> c.provisioning.ProvisionError?
  }

  lemma LateCallFails(s: State, e: Event, id: DeviceId, from: nat, hash: string -> string)
    requires Over(s, id) && from <= |s.calls| && forall i :: from <= i < |s.calls| ==> FailedFor(s.calls[i], id)
    ensures forall i :: from <= i < |Step(s, e, hash).calls| ==> FailedFor(Step(s, e, hash).calls[i], id)
  {
    var t := Step(s, e, hash);
    forall i | from <= i < |t.calls| ensures FailedFor(t.calls[i], id) {
      if i < |s.calls| { assert FailedFor(s.calls[i], id); }
    }
  }

  /** From the moment a settled device has no live record, every provisioning call that starts for it
      fails, in every continuation. */
  lemma {:induction false} NoSuccessOnceOver(s: State, events: seq<Event>, id: DeviceId, hash: string -> string)
    requires Inv(s, hash) && Over(s, id)
    ensures var t := Run(s, events, hash);
      Over(t, id) && |s.calls| <= |t.calls| && forall i :: |s.calls| <= i < |t.calls| ==> FailedFor(t.calls[i], id)
  {
    if events != [] {
      var n := |events| - 1;
      var t := Run(s, events[..n], hash);
      NoSuccessOnceOver(s, events[..n], id, hash);
      RunKeeps(s, events[..n], hash);
      OverStays(t, events[n], id, hash);
      LateCallFails(t, events[n], id, |s.calls|, hash);
      StepKeeps(t, events[n], hash);
    }
  }

  /** The successful DEL of call `i` ends the device's enrollment. */
  lemma DeleteEnds(s: State, i: nat, id: DeviceId, after: State, hash: string -> string)
    requires Inv(s, hash) && i < |s.calls| && s.calls[i].Provision? && s.calls[i].provisioning.Updated?
    requires s.calls[i].provisioning.id == id && after == Step(s, ProvisionDelete(i, true), hash)
    ensures Inv(after, hash) && Over(after, id) && |after.calls| == |s.calls|
  {
    assert CallOk(s, s.calls[i], hash);
    assert Genuine(s, id, s.calls[i].provisioning.seen);
    DeleteKeeps(s, i, true, hash);
    assert after == DeleteStep(s, i, true) && id !in after.redis;
  }

  /** No provisioning call that starts after a successful DEL succeeds for that device. */
  lemma NoSuccessAfterDelete(s: State, i: nat, after: State, events: seq<Event>, hash: string -> string)
    requires Reachable(s, hash) && i < |s.calls| && s.calls[i].Provision? && s.calls[i].provisioning.Updated?
    requires after == Step(s, ProvisionDelete(i, true), hash)
    ensures var t := Run(after, events, hash);
      |after.calls| <= |t.calls| &&
      forall j :: |after.calls| <= j < |t.calls| ==> FailedFor(t.calls[j], s.calls[i].provisioning.id)
  {
    ReachableInv(s, hash);
    DeleteEnds(s, i, s.calls[i].provisioning.id, after, hash);
    NoSuccessOnceOver(after, events, s.calls[i].provisioning.id, hash);
  }

  // ---------- the reported status only moves forward

  function Rank(r: Reported): nat {
    match r
    case Pending => 0
    case Row(Enrolled) => 1
    case Row(Provisioned) => 2
  }

  /** What an uninterrupted status query would report. */
  function Reports(s: State, id: DeviceId): Reported
    requires id in s.db
  {
    if Live(s, id) then Pending else Row(s.db[id].status)
  }

  /** Query `c` never answers below `low`; if its EXISTS did not fail, neither above the current status. */
  predicate QueryBetween(s: State, id: DeviceId, c: Call, low: nat)
    requires id in s.db
  {
    c.Query? && c.device == id ==>
      && (c.query.Answered? ==> low <= Rank(c.query.reported))
      && (c.existsOk && c.query.NoRecord? ==> !Live(s, id))
      && (c.existsOk && c.query.Answered? ==> Rank(c.query.reported) <= Rank(Reports(s, id)))
  }

  /** The status and all queries from index `from` on are between `low` and the current status. */
  ghost predicate AnswersBetween(s: State, id: DeviceId, from: nat, low: nat) {
    && id in s.db && low <= Rank(Reports(s, id))
    && forall i :: from <= i < |s.calls| ==> QueryBetween(s, id, s.calls[i], low)
  }

  lemma StatusStep(s: State, e: Event, id: DeviceId, hash: string -> string)
    requires Inv(s, hash) && Settled(s, id)
    ensures var t := Step(s, e, hash);
      Settled(t, id) && Rank(Reports(s, id)) <= Rank(Reports(t, id)) && (!Live(s, id) ==> !Live(t, id))
  {
    StepKeeps(s, e, hash);
    if !Live(s, id) { OverStays(s, e, id, hash); }
  }

  lemma AnswersStep(s: State, e: Event, id: DeviceId, from: nat, low: nat, hash: string -> string)
    requires Inv(s, hash) && Settled(s, id) && from <= |s.calls| && AnswersBetween(s, id, from, low)
    ensures AnswersBetween(Step(s, e, hash), id, from, low)
  {
    StatusStep(s, e, id, hash);
    StepKeeps(s, e, hash);
    QueriesStep(s, e, id, from, low, hash);
  }

  lemma QueriesStep(s: State, e: Event, id: DeviceId, from: nat, low: nat, hash: string -> string)
    requires from <= |s.calls| && AnswersBetween(s, id, from, low)
    requires var t := Step(s, e, hash);
      && |s.calls| <= |t.calls| && id in t.db
      && Rank(Reports(s, id)) <= Rank(Reports(t, id)) && (!Live(s, id) ==> !Live(t, id))
    ensures AnswersBetween(Step(s, e, hash), id, from, low)
  {
    var t := Step(s, e, hash);
    forall i | from <= i < |t.calls| ensures QueryBetween(t, id, t.calls[i], low) {
      if i < |s.calls| {
        OldQueryBetween(s, e, i, id, low, hash);
      } else {
        NewQueryBetween(s, e, i, id, low, hash);
      }
    }
  }

  lemma OldQueryBetween(s: State, e: Event, i: nat, id: DeviceId, low: nat, hash: string -> string)
    requires id in s.db && i < |s.calls| && low <= Rank(Reports(s, id)) && QueryBetween(s, id, s.calls[i], low)
    requires var t := Step(s, e, hash);
      && |s.calls| <= |t.calls| && id in t.db
      && Rank(Reports(s, id)) <= Rank(Reports(t, id)) && (!Live(s, id) ==> !Live(t, id))
    ensures QueryBetween(Step(s, e, hash), id, Step(s, e, hash).calls[i], low)
  {
    var t := Step(s, e, hash);
    if t.calls[i] != s.calls[i] && t.calls[i].Query? {
      AnswerChanged(s, e, i, hash);
    }
  }

  lemma NewQueryBetween(s: State, e: Event, i: nat, id: DeviceId, low: nat, hash: string -> string)
    requires id in s.db && |s.calls| <= i < |Step(s, e, hash).calls| && low <= Rank(Reports(s, id))
    ensures id in Step(s, e, hash).db && QueryBetween(Step(s, e, hash), id, Step(s, e, hash).calls[i], low)
  {
  }

  /** A query call only changes in its own load step, which answers with the row's status. */
  lemma AnswerChanged(s: State, e: Event, i: nat, hash: string -> string)
    requires i < |s.calls| && |s.calls| <= |Step(s, e, hash).calls|
    requires Step(s, e, hash).calls[i].Query? && Step(s, e, hash).calls[i] != s.calls[i]
    ensures e.StatusLoad? && e.call == i && s.calls[i].Query? && s.calls[i].query.NoRecord?
    ensures Step(s, e, hash) == AnswerStep(s, i, e.dbOk)
  {
  }

  /** Once enrollment has returned: over every continuation the status moves only forward, no query that
      starts in it answers below the status at its start, and a query whose EXISTS does not fail answers
      at most the status at the end. */
  lemma {:induction false} StatusMovesForward(s: State, events: seq<Event>, id: DeviceId, hash: string -> string)
    requires Inv(s, hash) && Settled(s, id)
    ensures var t := Run(s, events, hash);
      Settled(t, id) && |s.calls| <= |t.calls| && AnswersBetween(t, id, |s.calls|, Rank(Reports(s, id)))
  {
    if events != [] {
      var n := |events| - 1;
      var t := Run(s, events[..n], hash);
      StatusMovesForward(s, events[..n], id, hash);
      RunKeeps(s, events[..n], hash);
      StatusStep(t, events[n], id, hash);
      AnswersStep(t, events[n], id, |s.calls|, Rank(Reports(s, id)), hash);
      StepKeeps(t, events[n], hash);
    }
  }

  lemma {:induction false} RunAppend(s: State, a: seq<Event>, b: seq<Event>, hash: string -> string)
    ensures Run(s, a + b, hash) == Run(Run(s, a, hash), b, hash)
  {
    if b == [] {
      assert a + b == a;
    } else {
      var n := |b| - 1;
      assert (a + b)[..|a + b| - 1] == a + b[..n];
      RunAppend(s, a, b[..n], hash);
    }
  }

  /** A status query that starts after another has answered never reports an earlier status: pending, then
      enrolled, then provisioned, unless the EXISTS of the first failed. Both may be split at their two reads. */
  lemma LaterQueriesReportLater(s: State, a: seq<Event>, b: seq<Event>, id: DeviceId, i: nat, j: nat,
                                hash: string -> string)
    requires Reachable(s, hash) && Settled(s, id)
    requires var t, u := Run(s, a, hash), Run(Run(s, a, hash), b, hash);
      && |s.calls| <= i < |t.calls| && t.calls[i].Query? && t.calls[i].device == id
      && t.calls[i].existsOk && t.calls[i].query.Answered?
      && |t.calls| <= j < |u.calls| && u.calls[j].Query? && u.calls[j].device == id && u.calls[j].query.Answered?
    ensures Rank(Run(s, a, hash).calls[i].query.reported)
         <= Rank(Run(Run(s, a, hash), b, hash).calls[j].query.reported)
  {
    ReachableInv(s, hash);
    var t := Run(s, a, hash);
    StatusMovesForward(s, a, id, hash);
    RunKeeps(s, a, hash);
    StatusMovesForward(t, b, id, hash);
    assert QueryBetween(t, id, t.calls[i], Rank(Reports(s, id)));
    var u := Run(t, b, hash);
    assert QueryBetween(u, id, u.calls[j], Rank(Reports(t, id)));
  }

  /** Query `j`, if it has started after `from` and answered for `id`, does not report less than `r`. */
  predicate NotBelow(t: State, from: nat, j: nat, id: DeviceId, r: Reported) {
    from <= j < |t.calls| && t.calls[j].Query? && t.calls[j].device == id && t.calls[j].query.Answered? ==>
      Rank(r) <= Rank(t.calls[j].query.reported)
  }

  /** An answer is never contradicted by a later query, in any continuation, exactly when it is not ahead of
      the status. An answer given after a failed EXISTS can be ahead: it skips the live record. */
  lemma NeverContradictedIff(s: State, id: DeviceId, r: Reported, hash: string -> string)
    requires Reachable(s, hash) && Settled(s, id)
    ensures (forall events, j: nat :: NotBelow(Run(s, events, hash), |s.calls|, j, id, r))
        <==> Rank(r) <= Rank(Reports(s, id))
  {
    ReachableInv(s, hash);
    if Rank(r) <= Rank(Reports(s, id)) {
      forall events, j: nat ensures NotBelow(Run(s, events, hash), |s.calls|, j, id, r) {
        StatusMovesForward(s, events, id, hash);
        var t := Run(s, events, hash);
        if |s.calls| <= j < |t.calls| { assert QueryBetween(t, id, t.calls[j], Rank(Reports(s, id))); }
      }
    } else {
      FreshQuery(s, id, hash);
      assert !NotBelow(Run(s, QueryEvents(s, id), hash), |s.calls|, |s.calls|, id, r);
    }
  }

  /** One uninterrupted query without errors. */
  function QueryEvents(s: State, id: DeviceId): seq<Event> {
    [StatusExists(id, true), StatusLoad(|s.calls|, true)]
  }

  lemma FreshQuery(s: State, id: DeviceId, hash: string -> string)
    requires id in s.db
    ensures var t := Run(s, QueryEvents(s, id), hash);
      |t.calls| == |s.calls| + 1 && t.calls[|s.calls|] == Query(id, true, Answered(Reports(s, id)))
  {
    RunTwo(s, StatusExists(id, true), StatusLoad(|s.calls|, true), hash);
  }

  lemma RunOne(s: State, e: Event, hash: string -> string)
    ensures Run(s, [e], hash) == Step(s, e, hash)
  {
    assert [e][..0] == [];
  }

  lemma RunTwo(s: State, e: Event, f: Event, hash: string -> string)
    ensures Run(s, [e, f], hash) == Step(Step(s, e, hash), f, hash)
  {
    RunOne(s, e, hash);
    assert [e, f][..1] == [e];
  }

  lemma RunThree(s: State, e: Event, f: Event, g: Event, hash: string -> string)
    ensures Run(s, [e, f, g], hash) == Step(Step(Step(s, e, hash), f, hash), g, hash)
  {
    RunTwo(s, e, f, hash);
    assert [e, f, g][..2] == [e, f];
  }

  /** Before enrollment returns the status can go back: enrolled right after the row is created, pending
      once its record is stored. */
  lemma StatusGoesBackDuringEnrollment(s: State, i: nat, challenge: string, hash: string -> string)
    requires Inv(s, hash) && i < |s.calls| && s.calls[i].Enroll? && s.calls[i].enrolling.Created?
    ensures var id, t := s.calls[i].enrolling.id, Step(s, EnrollStore(i, challenge, true), hash);
      id in s.db && id in t.db && Reports(s, id) == Row(Enrolled) && Reports(t, id) == Pending
  {
    var id := s.calls[i].enrolling.id;
    assert InCreated(s.calls[i], id);
    assert !Settled(s, id);
    assert id !in s.redis;
    assert s.db[id].status == Enrolled by { if s.db[id].status == Provisioned { ProvisionedIsSettled(s, id, hash); } }
  }

  lemma ProvisionedIsSettled(s: State, id: DeviceId, hash: string -> string)
    requires Inv(s, hash) && id in s.db && s.db[id].status == Provisioned
    ensures Settled(s, id)
  {
    var j :| 0 <= j < |s.calls| && HasWritten(s.calls[j], id);
    assert CallOk(s, s.calls[j], hash);
  }

  /** The status of `id` after these events is not earlier than now. */
  predicate ForwardAfter(s: State, events: seq<Event>, id: DeviceId, hash: string -> string)
    requires id in s.db
  {
    var t := Run(s, events, hash);
    id in t.db && Rank(Reports(s, id)) <= Rank(Reports(t, id))
  }

  /** In every reachable state: all continuations move the status of a device only forward exactly when its
      enrollment is past its SET. */
  lemma ForwardIffSettled(s: State, id: DeviceId, hash: string -> string)
    requires Reachable(s, hash) && id in s.db
    ensures (forall events :: ForwardAfter(s, events, id, hash)) <==> Settled(s, id)
  {
    ReachableInv(s, hash);
    if Settled(s, id) {
      forall events ensures ForwardAfter(s, events, id, hash) {
        StatusMovesForward(s, events, id, hash);
      }
    } else {
      var i :| 0 <= i < |s.calls| && InCreated(s.calls[i], id);
      StatusGoesBackDuringEnrollment(s, i, "", hash);
      RunOne(s, EnrollStore(i, "", true), hash);
      assert !ForwardAfter(s, [EnrollStore(i, "", true)], id, hash);
    }
  }

  // ---------- one challenge can be answered more than once

  /** The call has passed its checks for `id` and has not failed since. */
  predicate PassedFor(c: Call, id: DeviceId) {
    c.Provision? && !c.provisioning.ProvisionError? && c.provisioning.id == id
  }

  predicate SucceededFor(c: Call, id: DeviceId) {
    c.Provision? && c.provisioning.Succeeded? && c.provisioning.id == id
  }

  /** The remaining steps of a call, without database or Redis errors. */
  function Finish(c: Call, i: nat): seq<Event> {
    if !c.Provision? then []
    else if c.provisioning.Matched? then [ProvisionLoad(i, true), ProvisionUpdate(i, true), ProvisionDelete(i, true)]
    else if c.provisioning.Loaded? then [ProvisionUpdate(i, true), ProvisionDelete(i, true)]
    else if c.provisioning.Updated? then [ProvisionDelete(i, true)]
    else []
  }

  /** A call that has passed its checks can always succeed, whatever other calls have done since. */
  lemma FinishSucceeds(s: State, i: nat, id: DeviceId, hash: string -> string)
    requires i < |s.calls| && PassedFor(s.calls[i], id) && id in s.db
    ensures FinishedIn(s, i, id, Run(s, Finish(s.calls[i], i), hash))
  {
    var load, update, delete := ProvisionLoad(i, true), ProvisionUpdate(i, true), ProvisionDelete(i, true);
    match s.calls[i].provisioning
    case Matched(_, _, _) =>
      RunThree(s, load, update, delete, hash);
      LoadThenFinish(s, i, id, hash);
    case Loaded(_, _, _, _) =>
      RunTwo(s, update, delete, hash);
      UpdateThenFinish(s, i, id, hash);
    case Updated(_, _, _) => RunOne(s, delete, hash);
    case Succeeded(_, _, _) =>
  }

  /** Call `i` has succeeded for `id` and nothing else has happened to the calls. */
  predicate FinishedIn(s: State, i: nat, id: DeviceId, t: State) {
    && i < |s.calls| == |t.calls| && SucceededFor(t.calls[i], id) && t.db.Keys == s.db.Keys
    && forall k :: 0 <= k < |s.calls| && k != i ==> t.calls[k] == s.calls[k]
  }

  lemma UpdateThenFinish(s: State, i: nat, id: DeviceId, hash: string -> string)
    requires i < |s.calls| && PassedFor(s.calls[i], id) && id in s.db && s.calls[i].provisioning.Loaded?
    ensures FinishedIn(s, i, id, Step(Step(s, ProvisionUpdate(i, true), hash), ProvisionDelete(i, true), hash))
  {
  }

  lemma LoadThenFinish(s: State, i: nat, id: DeviceId, hash: string -> string)
    requires i < |s.calls| && PassedFor(s.calls[i], id) && id in s.db && s.calls[i].provisioning.Matched?
    ensures var t := Step(s, ProvisionLoad(i, true), hash);
      FinishedIn(s, i, id, Step(Step(t, ProvisionUpdate(i, true), hash), ProvisionDelete(i, true), hash))
  {
    var t := Step(s, ProvisionLoad(i, true), hash);
    UpdateThenFinish(t, i, id, hash);
  }

  /** A call that has not passed its checks for `id` by now never will. */
  lemma PassedOnlyAtGet(s: State, e: Event, j: nat, id: DeviceId, hash: string -> string)
    requires j < |s.calls| && !PassedFor(s.calls[j], id)
    ensures j < |Step(s, e, hash).calls| && !PassedFor(Step(s, e, hash).calls[j], id)
  {
  }

  lemma {:induction false} NeverPasses(s: State, events: seq<Event>, j: nat, id: DeviceId, hash: string -> string)
    requires j < |s.calls| && !PassedFor(s.calls[j], id)
    ensures j < |Run(s, events, hash).calls| && !PassedFor(Run(s, events, hash).calls[j], id)
  {
    if events != [] {
      var n := |events| - 1;
      NeverPasses(s, events[..n], j, id, hash);
      PassedOnlyAtGet(Run(s, events[..n], hash), events[n], j, id, hash);
    }
  }

  predicate SucceedsAfter(s: State, events: seq<Event>, j: nat, id: DeviceId, hash: string -> string) {
    var t := Run(s, events, hash);
    j < |t.calls| && SucceededFor(t.calls[j], id)
  }

  lemma NoLateSuccess(s: State, events: seq<Event>, j: nat, id: DeviceId, hash: string -> string)
    requires Inv(s, hash) && Over(s, id) && !(j < |s.calls| && PassedFor(s.calls[j], id))
    ensures !SucceedsAfter(s, events, j, id, hash)
  {
    if j < |s.calls| {
      NeverPasses(s, events, j, id, hash);
    } else {
      NoSuccessOnceOver(s, events, id, hash);
      RunKeeps(s, events, hash);
      LateCallHasFailed(Run(s, events, hash), j, id, hash);
    }
  }

  lemma LateCallHasFailed(t: State, j: nat, id: DeviceId, hash: string -> string)
    requires Inv(t, hash) && (j < |t.calls| ==> FailedFor(t.calls[j], id))
    ensures !(j < |t.calls| && SucceededFor(t.calls[j], id))
  {
    if j < |t.calls| { assert CallOk(t, t.calls[j], hash); }
  }

  /** From the moment a settled device has no live record, a call can still succeed for it exactly when it
      has passed its checks by then and has not failed since. */
  lemma SuccessOnceOverIff(s: State, j: nat, id: DeviceId, hash: string -> string)
    requires Inv(s, hash) && Over(s, id)
    ensures (exists events :: SucceedsAfter(s, events, j, id, hash)) <==> j < |s.calls| && PassedFor(s.calls[j], id)
  {
    if j < |s.calls| && PassedFor(s.calls[j], id) {
      FinishSucceeds(s, j, id, hash);
      assert SucceedsAfter(s, Finish(s.calls[j], j), j, id, hash);
    } else {
      forall events ensures !SucceedsAfter(s, events, j, id, hash) {
        NoLateSuccess(s, events, j, id, hash);
      }
    }
  }

  lemma DeletePasses(s: State, i: nat, id: DeviceId, after: State, j: nat, hash: string -> string)
    requires i < |s.calls| && s.calls[i].Provision? && s.calls[i].provisioning.Updated?
    requires after == Step(s, ProvisionDelete(i, true), hash)
    ensures j < |after.calls| && PassedFor(after.calls[j], id) <==> j < |s.calls| && PassedFor(s.calls[j], id)
  {
  }

  /** After a successful DEL, a call can still succeed for the device exactly when its GET came before the
      DEL, passed the checks, and the call has not failed since: the DEL refuses new calls only. */
  lemma SuccessAfterDeleteIff(s: State, i: nat, id: DeviceId, after: State, j: nat, hash: string -> string)
    requires Reachable(s, hash) && i < |s.calls| && s.calls[i].Provision? && s.calls[i].provisioning.Updated?
    requires s.calls[i].provisioning.id == id && after == Step(s, ProvisionDelete(i, true), hash)
    ensures (exists events :: SucceedsAfter(after, events, j, id, hash))
        <==> j < |s.calls| && PassedFor(s.calls[j], id)
  {
    ReachableInv(s, hash);
    DeleteEnds(s, i, id, after, hash);
    SuccessOnceOverIff(after, j, id, hash);
    DeletePasses(s, i, id, after, j, hash);
  }

  // ---------- which answers are accepted

  /** The request names device `id`, whose record is live, gives its tenant and the hash of its challenge, and
      that hash is not empty. */
  predicate RightAnswer(s: State, req: ProvisionRequest, id: DeviceId, hash: string -> string) {
    && req.device == Some(id) && id in s.redis && s.now < s.redis[id].deadline
    && req.tenant == Some(s.redis[id].tenant)
    && req.response == Some(hash(s.redis[id].challenge)) && hash(s.redis[id].challenge) != ""
  }

  /** In every state and at every time, GET lets a request through exactly when GET works and the request is
      the right answer for a device. */
  lemma MatchedIff(s: State, req: ProvisionRequest, getOk: bool, hash: string -> string)
    ensures var t := Step(s, ProvisionGet(req, getOk), hash);
      && |t.calls| == |s.calls| + 1 && t.redis == s.redis && t.db == s.db && t.now == s.now
      && t.calls[|s.calls|].Provision? && t.calls[|s.calls|].preq == req
      && (t.calls[|s.calls|].provisioning.Matched? <==>
            getOk && req.device.Some? && RightAnswer(s, req, req.device.value, hash))
      && (t.calls[|s.calls|].provisioning.Matched? || t.calls[|s.calls|].provisioning.ProvisionError?)
      && (t.calls[|s.calls|].provisioning.Matched? ==>
            t.calls[|s.calls|].provisioning == Matched(req.device.value, s.redis[req.device.value], s.now))
  {
  }

  /** Why a request is refused: identifiers that do not parse, then no live record, then another tenant's record,
      then no answer, then a wrong one. */
  lemma RefusedBecause(s: State, req: ProvisionRequest, getOk: bool, hash: string -> string)
    ensures var p := GetOutcome(s, req, getOk, hash);
      && (p == ProvisionError(InvalidDevice) <==> req.device == None)
      && (p == ProvisionError(InvalidTenant) <==> req.device != None && req.tenant == None)
      && (req.device.Some? && req.tenant.Some? ==>
           var id := req.device.value;
           var live := getOk && id in s.redis && s.now < s.redis[id].deadline;
           && (p == ProvisionError(NoEnrollment) <==> !live)
           && (p == ProvisionError(TenantMismatch) <==> live && s.redis[id].tenant != req.tenant.value)
           && (p == ProvisionError(MissingResponse) <==>
                 live && s.redis[id].tenant == req.tenant.value && req.response in {None, Some("")})
           && (p == ProvisionError(ResponseMismatch) <==>
                 live && s.redis[id].tenant == req.tenant.value && req.response !in {None, Some("")}
                 && req.response != Some(hash(s.redis[id].challenge))))
  {
  }

  /** A whole provisioning call without database or Redis errors. */
  function ProvisionEvents(i: nat, req: ProvisionRequest): seq<Event> {
    [ProvisionGet(req, true)] + FinishMatched(i)
  }

  /** In every reachable state, an uninterrupted call succeeds for a device exactly when the request is the
      right answer; then its row is provisioned and the record is gone. */
  lemma ProvisionsIff(s: State, req: ProvisionRequest, id: DeviceId, hash: string -> string)
    requires Reachable(s, hash)
    ensures var i := |s.calls|;
      var t := Run(s, ProvisionEvents(i, req), hash);
      && |t.calls| == i + 1
      && (SucceededFor(t.calls[i], id) <==> RightAnswer(s, req, id, hash))
      && (RightAnswer(s, req, id, hash) ==> id in t.db && t.db[id].status == Provisioned && id !in t.redis)
  {
    var i := |s.calls|;
    var u := Step(s, ProvisionGet(req, true), hash);
    ReachableInv(s, hash);
    StepKeeps(s, ProvisionGet(req, true), hash);
    RunOne(s, ProvisionGet(req, true), hash);
    RunAppend(s, [ProvisionGet(req, true)], FinishMatched(i), hash);
    RunThree(u, ProvisionLoad(i, true), ProvisionUpdate(i, true), ProvisionDelete(i, true), hash);
    MatchedIff(s, req, true, hash);
    AfterGet(u, i, hash);
  }

  /** The three steps after a GET: a matched call succeeds, a failed one stays failed. */
  lemma AfterGet(u: State, i: nat, hash: string -> string)
    requires Inv(u, hash) && i < |u.calls| && u.calls[i].Provision?
    requires u.calls[i].provisioning.Matched? || u.calls[i].provisioning.ProvisionError?
    ensures var p := u.calls[i].provisioning;
      var v := Step(Step(u, ProvisionLoad(i, true), hash), ProvisionUpdate(i, true), hash);
      var t := Step(v, ProvisionDelete(i, true), hash);
      && |t.calls| == |u.calls|
      && (p.ProvisionError? ==> t == u)
      && (p.Matched? ==> SucceededFor(t.calls[i], p.id) && p.id !in t.redis
                         && p.id in t.db && t.db[p.id].status == Provisioned)
  {
    assert CallOk(u, u.calls[i], hash);
  }

  // ---------- runs from the start

  function ResponseTo(id: DeviceId, tenant: TenantId, challenge: string, hash: string -> string): ProvisionRequest {
    ProvisionRequest(Some(id), Some(tenant), Some(hash(challenge)))
  }

  function CreatedState(req: EnrollRequest, tenant: TenantId, id: DeviceId): State {
    State(0, map[], map[id := Device(tenant, req.serial, Enrolled)], [Enroll(req, tenant, Created(id))])
  }

  function EnrolledState(req: EnrollRequest, tenant: TenantId, id: DeviceId, challenge: string): State {
    var rec := Record(tenant, challenge, ENROLLMENT_TTL_MS);
    State(0, map[id := rec], map[id := Device(tenant, req.serial, Enrolled)],
          [Enroll(req, tenant, Returned(id, Some(rec), 0))])
  }

  lemma CreateRun(req: EnrollRequest, tenant: TenantId, id: DeviceId, hash: string -> string)
    requires Complete(req)
    ensures Run(Init(0), [EnrollSearch(req, tenant, true), EnrollCreate(0, id, true)], hash)
         == CreatedState(req, tenant, id)
  {
    RunTwo(Init(0), EnrollSearch(req, tenant, true), EnrollCreate(0, id, true), hash);
  }

  /** Every complete request, identifier and challenge: right after the row is created the status is
      enrolled, and it goes back to pending when the record is stored. */
  lemma StatusGoesBackFromStart(req: EnrollRequest, tenant: TenantId, id: DeviceId, challenge: string,
                                hash: string -> string)
    requires Complete(req)
    ensures var creating := [EnrollSearch(req, tenant, true), EnrollCreate(0, id, true)];
      var s, t := Run(Init(0), creating, hash), Run(Init(0), creating + [EnrollStore(0, challenge, true)], hash);
      && id in s.db && Reports(s, id) == Row(Enrolled) && !Settled(s, id)
      && t == EnrolledState(req, tenant, id, challenge) && id in t.db && Reports(t, id) == Pending
  {
    var creating := [EnrollSearch(req, tenant, true), EnrollCreate(0, id, true)];
    var store := EnrollStore(0, challenge, true);
    CreateRun(req, tenant, id, hash);
    RunAppend(Init(0), creating, [store], hash);
    RunOne(CreatedState(req, tenant, id), store, hash);
    assert InCreated(CreatedState(req, tenant, id).calls[0], id);
  }

  /** From the start: enrolled at any time, a device is provisioned by the right answer at every time below
      1800000 milliseconds after its record was stored, and at none from then on. */
  lemma ThirtyMinutes(start: nat, ms: nat, req: EnrollRequest, tenant: TenantId, id: DeviceId, challenge: string,
                      hash: string -> string)
    requires Complete(req) && hash(challenge) != ""
    ensures var enroll := [EnrollSearch(req, tenant, true), EnrollCreate(0, id, true)]
                          + [EnrollStore(0, challenge, true), Tick(ms)];
      var call := ProvisionEvents(1, ResponseTo(id, tenant, challenge, hash));
      var t := Run(Run(Init(start), enroll, hash), call, hash);
      && |t.calls| == 2
      && (SucceededFor(t.calls[1], id) <==> ms < 1800000)
      && (ms < 1800000 <==> id in t.db && t.db[id].status == Provisioned)
  {
    var enroll := [EnrollSearch(req, tenant, true), EnrollCreate(0, id, true)]
                  + [EnrollStore(0, challenge, true), Tick(ms)];
    EnrollRun(start, ms, req, tenant, id, challenge, hash);
    var s := Run(Init(start), enroll, hash);
    var request := ResponseTo(id, tenant, challenge, hash);
    assert Reachable(s, hash);
    ProvisionsIff(s, request, id, hash);
    assert RightAnswer(s, request, id, hash) <==> ms < 1800000;
    if ms >= 1800000 {
      ReachableInv(s, hash);
      RefusedChangesNothing(s, request, hash);
    }
  }

  lemma EnrollRun(start: nat, ms: nat, req: EnrollRequest, tenant: TenantId, id: DeviceId, challenge: string,
                  hash: string -> string)
    requires Complete(req)
    ensures var rec := Record(tenant, challenge, start + ENROLLMENT_TTL_MS);
      Run(Init(start), [EnrollSearch(req, tenant, true), EnrollCreate(0, id, true)]
                       + [EnrollStore(0, challenge, true), Tick(ms)], hash)
      == State(start + ms, map[id := rec], map[id := Device(tenant, req.serial, Enrolled)],
               [Enroll(req, tenant, Returned(id, Some(rec), start))])
  {
    var a := [EnrollSearch(req, tenant, true), EnrollCreate(0, id, true)];
    var b := [EnrollStore(0, challenge, true), Tick(ms)];
    var s := State(start, map[], map[id := Device(tenant, req.serial, Enrolled)], [Enroll(req, tenant, Created(id))]);
    RunTwo(Init(start), a[0], a[1], hash);
    assert Step(Step(Init(start), a[0], hash), a[1], hash) == s;
    RunAppend(Init(start), a, b, hash);
    RunTwo(s, b[0], b[1], hash);
    StoreThenTick(s, ms, req, tenant, id, challenge, hash);
  }

  lemma StoreThenTick(s: State, ms: nat, req: EnrollRequest, tenant: TenantId, id: DeviceId, challenge: string,
                      hash: string -> string)
    requires s.calls == [Enroll(req, tenant, Created(id))]
    ensures var rec := Record(tenant, challenge, s.now + ENROLLMENT_TTL_MS);
      Step(Step(s, EnrollStore(0, challenge, true), hash), Tick(ms), hash)
      == State(s.now + ms, s.redis[id := rec], s.db, [Enroll(req, tenant, Returned(id, Some(rec), s.now))])
  {
  }

  lemma RefusedChangesNothing(s: State, req: ProvisionRequest, hash: string -> string)
    requires req.device.Some? && !RightAnswer(s, req, req.device.value, hash) && Inv(s, hash)
    ensures Run(s, ProvisionEvents(|s.calls|, req), hash).db == s.db
  {
    var i, u := |s.calls|, Step(s, ProvisionGet(req, true), hash);
    StepKeeps(s, ProvisionGet(req, true), hash);
    RunOne(s, ProvisionGet(req, true), hash);
    RunAppend(s, [ProvisionGet(req, true)], FinishMatched(i), hash);
    RunThree(u, ProvisionLoad(i, true), ProvisionUpdate(i, true), ProvisionDelete(i, true), hash);
    MatchedIff(s, req, true, hash);
    AfterGet(u, i, hash);
  }

  /** A device is enrolled, two calls read its record, and both go on to the end. */
  function OverlapRun(req: EnrollRequest, tenant: TenantId, id: DeviceId, challenge: string, hash: string -> string)
    : seq<Event>
  {
    var get := ProvisionGet(ResponseTo(id, tenant, challenge, hash), true);
    [EnrollSearch(req, tenant, true), EnrollCreate(0, id, true)] + [EnrollStore(0, challenge, true)] + [get, get]
    + FinishMatched(1) + FinishMatched(2)
  }

  function FinishMatched(i: nat): seq<Event> {
    [ProvisionLoad(i, true), ProvisionUpdate(i, true), ProvisionDelete(i, true)]
  }

  lemma BothMatched(req: EnrollRequest, tenant: TenantId, id: DeviceId, challenge: string, hash: string -> string)
    requires hash(challenge) != ""
    ensures var get := ProvisionGet(ResponseTo(id, tenant, challenge, hash), true);
      var s, rec := EnrolledState(req, tenant, id, challenge), Record(tenant, challenge, ENROLLMENT_TTL_MS);
      var c := Provision(ResponseTo(id, tenant, challenge, hash), Matched(id, rec, 0));
      Run(s, [get, get], hash) == s.(calls := s.calls + [c, c])
  {
    var get := ProvisionGet(ResponseTo(id, tenant, challenge, hash), true);
    RunTwo(EnrolledState(req, tenant, id, challenge), get, get, hash);
  }

  /** Every complete request, identifier and non-empty answer: two overlapping calls both succeed with one
      challenge, the second after the first has deleted the record, and the device is provisioned. */
  lemma OverlappingCallsBothSucceed(req: EnrollRequest, tenant: TenantId, id: DeviceId, challenge: string,
                                    hash: string -> string)
    requires Complete(req) && hash(challenge) != ""
    ensures var t := Run(Init(0), OverlapRun(req, tenant, id, challenge, hash), hash);
      && |t.calls| == 3 && SucceededFor(t.calls[1], id) && SucceededFor(t.calls[2], id)
      && id in t.db && t.db[id].status == Provisioned
  {
    var get := ProvisionGet(ResponseTo(id, tenant, challenge, hash), true);
    var enroll := [EnrollSearch(req, tenant, true), EnrollCreate(0, id, true)] + [EnrollStore(0, challenge, true)];
    StatusGoesBackFromStart(req, tenant, id, challenge, hash);
    BothMatched(req, tenant, id, challenge, hash);
    RunAppend(Init(0), enroll, [get, get], hash);
    RunAppend(Init(0), enroll + [get, get], FinishMatched(1), hash);
    RunAppend(Init(0), enroll + [get, get] + FinishMatched(1), FinishMatched(2), hash);
    var s := Run(Init(0), enroll + [get, get], hash);
    FinishSucceeds(s, 1, id, hash);
    var u := Run(s, FinishMatched(1), hash);
    FinishSucceeds(u, 2, id, hash);
    RunKeeps(Init(0), OverlapRun(req, tenant, id, challenge, hash), hash);
    var t := Run(u, FinishMatched(2), hash);
    assert CallOk(t, t.calls[2], hash);
  }

  // ---------- uninterrupted calls

  /** What the last three steps of the only provisioning call make of its GET. */
  lemma RestOfProvisioning(s: State, req: ProvisionRequest, p: ProvisionPhase, loadOk: bool, saveOk: bool, delOk: bool,
                           hash: string -> string)
    requires s.calls == [Provision(req, p)] && (p.ProvisionError? || p.Matched?)
    ensures var u := Step(Step(s, ProvisionLoad(0, loadOk), hash), ProvisionUpdate(0, saveOk), hash);
      Step(u, ProvisionDelete(0, delOk), hash) ==
        if p.ProvisionError? then s
        else if !loadOk || p.id !in s.db then s.(calls := [Provision(req, ProvisionError(DeviceNotFound))])
        else if !saveOk then s.(calls := [Provision(req, ProvisionError(UpdateFailed))])
        else State(s.now, if delOk then s.redis - {p.id} else s.redis,
                   s.db[p.id := s.db[p.id].(status := Provisioned)], [Provision(req, Succeeded(p.id, p.seen, p.at))])
  {
  }

  /** The service over its two stores; `hash` is the challenge hash. */
  class ProvisioningService {
    var now: nat
    var redis: map<DeviceId, Record>
    var db: map<DeviceId, Device>
    const hash: string -> string

    constructor (hash: string -> string)
      ensures this.hash == hash && now == 0 && redis == map[] && db == map[]
    {
      this.hash := hash;
      now, redis, db := 0, map[], map[];
    }

    ghost function Stores(): State
      reads this
    {
      State(now, redis, db, [])
    }

    /** `id` is the key the database draws for the new row. */
    method EnrollDevice(req: EnrollRequest, tenant: TenantId, id: DeviceId, challenge: string,
                        searchOk: bool, dbOk: bool, setOk: bool)
      returns (result: EnrollPhase)
      modifies this`redis, this`db
      ensures var s := Step(old(Stores()), EnrollSearch(req, tenant, searchOk), hash);
        var t := Step(Step(s, EnrollCreate(0, id, dbOk), hash), EnrollStore(0, challenge, setOk), hash);
        redis == t.redis && db == t.db && t.calls == [Enroll(req, tenant, result)]
      ensures result.Returned? || (result.EnrollError? && redis == old(redis) && db == old(db))
      ensures result == EnrollError(MissingFields) <==>
        req.serial == "" || req.manufacturer == "" || req.model == "" || req.deviceType == ""
      ensures result == EnrollError(SerialExists) <==>
        && req.serial != "" && req.manufacturer != "" && req.model != "" && req.deviceType != "" && searchOk
        && exists d :: d in old(db) && old(db)[d].serial == req.serial && old(db)[d].tenant == tenant
      ensures result.Returned? ==>
        && dbOk && id !in old(db) && (forall d :: d in old(db) ==> old(db)[d].serial != req.serial)
        && db == old(db)[id := Device(tenant, req.serial, Enrolled)]
        && redis == if setOk then old(redis)[id := Record(tenant, challenge, now + 1800000)] else old(redis)
      ensures
        && req.serial != "" && req.manufacturer != "" && req.model != "" && req.deviceType != ""
        && dbOk && id !in old(db) && (forall d :: d in old(db) ==> old(db)[d].serial != req.serial)
        ==> result.Returned?
    {
      if req.serial == "" || req.manufacturer == "" || req.model == "" || req.deviceType == "" {
        return EnrollError(MissingFields);
      }
      if searchOk && SerialTakenBy(db, req.serial, tenant) {
        return EnrollError(SerialExists);
      }
      if !dbOk || id in db || SerialTaken(db, req.serial) {
        return EnrollError(CreateFailed);
      }
      db := db[id := Device(tenant, req.serial, Enrolled)];
      if setOk {
        var rec := Record(tenant, challenge, now + ENROLLMENT_TTL_MS);
        redis := redis[id := rec];
        return Returned(id, Some(rec), now);
      }
      return Returned(id, None, now);
    }

    method ProvisionSecureElement(req: ProvisionRequest, getOk: bool, loadOk: bool, saveOk: bool, delOk: bool)
      returns (result: ProvisionPhase)
      modifies this`redis, this`db
      ensures var s := Step(old(Stores()), ProvisionGet(req, getOk), hash);
        var u := Step(Step(s, ProvisionLoad(0, loadOk), hash), ProvisionUpdate(0, saveOk), hash);
        var t := Step(u, ProvisionDelete(0, delOk), hash);
        redis == t.redis && db == t.db && t.calls == [Provision(req, result)]
      ensures result.Succeeded? || (result.ProvisionError? && redis == old(redis) && db == old(db))
      ensures result.Succeeded? <==>
        && getOk && loadOk && saveOk
        && req.device.Some? && req.device.value in old(redis) && req.device.value in old(db)
        && var rec := old(redis)[req.device.value];
        && now < rec.deadline && req.tenant == Some(rec.tenant)
        && req.response == Some(hash(rec.challenge)) && hash(rec.challenge) != ""
      ensures result.Succeeded? ==>
        var id := req.device.value;
        && db == old(db)[id := old(db)[id].(status := Provisioned)]
        && redis == if delOk then old(redis) - {id} else old(redis)
    {
      ghost var phase := GetOutcome(Stores(), req, getOk, hash);
      RestOfProvisioning(NewCall(Stores(), Provision(req, phase)), req, phase, loadOk, saveOk, delOk, hash);
      if req.device.None? {
        return ProvisionError(InvalidDevice);
      }
      var id := req.device.value;
      if req.tenant.None? {
        return ProvisionError(InvalidTenant);
      }
      if !getOk || id !in redis || now >= redis[id].deadline {
        return ProvisionError(NoEnrollment);
      }
      var seen := redis[id];
      if seen.tenant != req.tenant.value {
        return ProvisionError(TenantMismatch);
      }
      if req.response.None? || req.response.value == "" {
        return ProvisionError(MissingResponse);
      }
      var expected := hash(seen.challenge);
      if req.response.value != expected {
        return ProvisionError(ResponseMismatch);
      }
      if !loadOk || id !in db {
        return ProvisionError(DeviceNotFound);
      }
      var row := db[id];
      row := row.(status := Provisioned);
      if !saveOk {
        return ProvisionError(UpdateFailed);
      }
      db := db[id := row];
      if delOk {
        redis := redis - {id};
      }
      return Succeeded(id, seen, now);
    }

    method GetProvisioningStatus(id: DeviceId, existsOk: bool, dbOk: bool) returns (result: QueryPhase)
      ensures var t := Step(Step(Stores(), StatusExists(id, existsOk), hash), StatusLoad(0, dbOk), hash);
        t.redis == redis && t.db == db && t.calls == [Query(id, existsOk, result)]
      ensures id in db && existsOk && dbOk ==> result == Answered(Reports(Stores(), id))
      ensures result == Answered(Pending) <==> existsOk && id in redis && now < redis[id].deadline
      ensures result != Answered(Pending) ==>
        result == if dbOk && id in db then Answered(Row(db[id].status)) else QueryError(DeviceNotFound)
    {
      if existsOk && id in redis && now < redis[id].deadline {
        return Answered(Pending);
      }
      if !dbOk || id !in db {
        return QueryError(DeviceNotFound);
      }
      return Answered(Row(db[id].status));
    }
  }
}
