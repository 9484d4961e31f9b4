/** Authentication with a stored device credential: status, generation and server origin. */
module DeviceCredentials {
  import opened Wrappers

  const WRITE_INTERVAL := 60_000_000

  datatype Status = Active | Expired | Revoked

  datatype Credential = Credential(
    status: Status, userId: nat, deviceId: nat, generation: int, expiresAt: int,
    revokedAt: Option<int>, lastUsedAt: Option<int>)

  datatype Device = Device(
    userId: nat, active: bool, generation: int, serverOrigin: Option<string>, lastSeenAt: Option<int>)

  datatype Tables = Tables(credentials: map<string, Credential>, devices: map<nat, Device>, activeUsers: set<nat>)

  datatype Error =
    CredentialInvalid | CredentialRevoked | CredentialExpired | DeviceInactive | OriginConflict | UserInactive

  datatype Outcome = Accepted(deviceId: nat) | Rejected(error: Error)

  datatype Call = Call(tokenHash: string, touch: bool, now: int, publicOrigin: string)

  predicate Due(at: Option<int>, now: int) {
    at.None? || at.value <= now - WRITE_INTERVAL
  }

  class CredentialStore {
    var credentials: map<string, Credential>
    var devices: map<nat, Device>
    var activeUsers: set<nat>

    ghost function View(): Tables
      reads this
    {
      Tables(credentials, devices, activeUsers)
    }

    /** _resolve_ego_browser_device_auth, with every write it makes. */
    method Resolve(c: Call) returns (outcome: Outcome)
      modifies this`credentials, this`devices
      ensures (View(), outcome) == ResolveStep(old(View()), c)
    {
      if c.tokenHash !in credentials {
        return Rejected(CredentialInvalid);
      }
      var credential := credentials[c.tokenHash];
      if credential.status != Active {
        return Rejected(CredentialRevoked);
      }
      if credential.expiresAt <= c.now {
        credentials := credentials[c.tokenHash := credential.(status := Expired)];
        return Rejected(CredentialExpired);
      }
      var d := credential.deviceId;
      if d !in devices || devices[d].userId != credential.userId || !devices[d].active
         || devices[d].generation != credential.generation {
        credentials := credentials[c.tokenHash := credential.(status := Revoked, revokedAt := Some(c.now))];
        return Rejected(DeviceInactive);
      }
      var device := devices[d];
      if device.serverOrigin.Some? && device.serverOrigin.value != c.publicOrigin {
        return Rejected(OriginConflict);
      }
      if credential.userId !in activeUsers {
        return Rejected(UserInactive);
      }
      if device.serverOrigin.None? {
        device := device.(serverOrigin := Some(c.publicOrigin));
      }
      if c.touch && (Due(credential.lastUsedAt, c.now) || Due(device.lastSeenAt, c.now)) {
        credentials := credentials[c.tokenHash := credential.(lastUsedAt := Some(c.now))];
        device := device.(lastSeenAt := Some(c.now));
      }
      devices := devices[d := device];
      return Accepted(d);
    }
  }

  /** Why a call fails, in the order of the checks; None when it succeeds. */
  function Failure(t: Tables, c: Call): Option<Error> {
    if c.tokenHash !in t.credentials then Some(CredentialInvalid)
    else
      var k := t.credentials[c.tokenHash];
      if k.status != Active then Some(CredentialRevoked)
      else if k.expiresAt <= c.now then Some(CredentialExpired)
      else if k.deviceId !in t.devices || t.devices[k.deviceId].userId != k.userId
              || !t.devices[k.deviceId].active || t.devices[k.deviceId].generation != k.generation then
        Some(DeviceInactive)
      else if t.devices[k.deviceId].serverOrigin !in {None, Some(c.publicOrigin)} then Some(OriginConflict)
      else if k.userId !in t.activeUsers then Some(UserInactive)
      else None
  }

  function ResolveStep(t: Tables, c: Call): (Tables, Outcome) {
    match Failure(t, c)
    case Some(CredentialExpired) =>
      (t.(credentials := t.credentials[c.tokenHash := t.credentials[c.tokenHash].(status := Expired)]),
       Rejected(CredentialExpired))
    case Some(DeviceInactive) =>
      var revoked := t.credentials[c.tokenHash].(status := Revoked, revokedAt := Some(c.now));
      (t.(credentials := t.credentials[c.tokenHash := revoked]), Rejected(DeviceInactive))
    case Some(error) => (t, Rejected(error))
    case None =>
      var k := t.credentials[c.tokenHash];
      var device := t.devices[k.deviceId];
      var update := c.touch && (Due(k.lastUsedAt, c.now) || Due(device.lastSeenAt, c.now));
      (t.(
        credentials := if update then t.credentials[c.tokenHash := k.(lastUsedAt := Some(c.now))] else t.credentials,
        devices := t.devices[k.deviceId := device.(
          serverOrigin := Some(c.publicOrigin),
          lastSeenAt := if update then Some(c.now) else device.lastSeenAt)]),
       Accepted(k.deviceId))
  }

  // ---------- Who is refused, and what is written

  /** The credential that the call presents. */
  predicate IsStored(t: Tables, c: Call) {
    c.tokenHash in t.credentials
  }

  predicate InForce(t: Tables, c: Call)
    requires IsStored(t, c)
  {
    t.credentials[c.tokenHash].status == Active && c.now < t.credentials[c.tokenHash].expiresAt
  }

  /** The credential's device is there, belongs to the same user, is active and of the same generation. */
  predicate DeviceFits(t: Tables, c: Call)
    requires IsStored(t, c)
  {
    var k := t.credentials[c.tokenHash];
    && k.deviceId in t.devices
    && var device := t.devices[k.deviceId];
       device.userId == k.userId && device.active && device.generation == k.generation
  }

  predicate OriginFits(t: Tables, c: Call)
    requires IsStored(t, c) && DeviceFits(t, c)
  {
    var origin := t.devices[t.credentials[c.tokenHash].deviceId].serverOrigin;
    origin == None || origin == Some(c.publicOrigin)
  }

  predicate UserIsActive(t: Tables, c: Call)
    requires IsStored(t, c)
  {
    t.credentials[c.tokenHash].userId in t.activeUsers
  }

  /** A call succeeds exactly when its credential is in force, its device and its origin fit and its user
      is active; each error names the first check that fails. */
  lemma ResolvedExactly(t: Tables, c: Call)
    ensures var outcome := ResolveStep(t, c).1;
      && (outcome.Accepted? <==>
            IsStored(t, c) && InForce(t, c) && DeviceFits(t, c) && OriginFits(t, c) && UserIsActive(t, c))
      && (outcome.Accepted? ==> outcome.deviceId == t.credentials[c.tokenHash].deviceId)
      && (outcome == Rejected(CredentialInvalid) <==> !IsStored(t, c))
      && (outcome == Rejected(CredentialRevoked) <==>
            IsStored(t, c) && t.credentials[c.tokenHash].status in {Expired, Revoked})
      && (outcome == Rejected(CredentialExpired) <==>
            && IsStored(t, c) && t.credentials[c.tokenHash].status == Active
            && t.credentials[c.tokenHash].expiresAt <= c.now)
      && (outcome == Rejected(DeviceInactive) <==> IsStored(t, c) && InForce(t, c) && !DeviceFits(t, c))
      && (outcome == Rejected(OriginConflict) <==>
            IsStored(t, c) && InForce(t, c) && DeviceFits(t, c) && !OriginFits(t, c))
      && (outcome == Rejected(UserInactive) <==>
            IsStored(t, c) && InForce(t, c) && DeviceFits(t, c) && OriginFits(t, c) && !UserIsActive(t, c))
  {
  }

  /** What a call leaves of the presented credential: expired or revoked when that is the refusal, used
      at this instant when a touching success finds either record missing or 60 seconds old. */
  lemma CredentialWrittenExactly(t: Tables, c: Call)
    requires IsStored(t, c)
    ensures var (t', outcome) := ResolveStep(t, c);
      var k, k' := t.credentials[c.tokenHash], t'.credentials[c.tokenHash];
      && k'.userId == k.userId && k'.deviceId == k.deviceId
      && k'.generation == k.generation && k'.expiresAt == k.expiresAt
      && k'.status == (if outcome == Rejected(CredentialExpired) then Expired
                       else if outcome == Rejected(DeviceInactive) then Revoked else k.status)
      && k'.revokedAt == (if outcome == Rejected(DeviceInactive) then Some(c.now) else k.revokedAt)
      && k'.lastUsedAt == (if outcome.Accepted? && Touched(t, c) then Some(c.now) else k.lastUsedAt)
  {
  }

  /** A touching call with an activity record that is missing or at least 60 seconds old. */
  predicate Touched(t: Tables, c: Call)
    requires IsStored(t, c) && DeviceFits(t, c)
  {
    var used, seen := t.credentials[c.tokenHash].lastUsedAt, t.devices[t.credentials[c.tokenHash].deviceId].lastSeenAt;
    && c.touch
    && (|| used == None || c.now - used.value >= 60 * 1_000_000
        || seen == None || c.now - seen.value >= 60 * 1_000_000)
  }

  /** And of a device: a success binds the origin and, if touching, records the activity of its own
      device; every other device, and every device after a refusal, is as before. */
  lemma DeviceWrittenExactly(t: Tables, c: Call, d: nat)
    requires d in t.devices
    ensures var (t', outcome) := ResolveStep(t, c);
      && d in t'.devices && t'.activeUsers == t.activeUsers
      && (forall h | h in t.credentials && h != c.tokenHash ::
            h in t'.credentials && t'.credentials[h] == t.credentials[h])
      && t'.devices[d] ==
           if outcome != Accepted(d) then t.devices[d]
           else t.devices[d].(serverOrigin := Some(c.publicOrigin),
                              lastSeenAt := if Touched(t, c) then Some(c.now) else t.devices[d].lastSeenAt)
  {
  }

  // ---------- Runs

  datatype Event = Authenticate(call: Call) | Other(after: Tables)

  /** What the other services should keep: a credential that is not active does not become active, and a
      device's origin, once set, is not changed. */
  ghost predicate Respectful(t: Tables, t': Tables) {
    && (forall h | h in t.credentials && t.credentials[h].status != Active ::
          h in t'.credentials && t'.credentials[h].status != Active)
    && (forall d | d in t.devices && t.devices[d].serverOrigin.Some? ::
          d in t'.devices && t'.devices[d].serverOrigin == t.devices[d].serverOrigin)
  }

  ghost function Apply(t: Tables, e: Event): Tables {
    match e
    case Authenticate(c) => ResolveStep(t, c).0
    case Other(after) => after
  }

  ghost function After(t: Tables, events: seq<Event>): Tables {
    if events == [] then t else Apply(After(t, events[..|events| - 1]), events[|events| - 1])
  }

  /** From position i up to, not including, j the other services keep it. */
  ghost predicate OthersRespectful(t: Tables, events: seq<Event>, i: nat, j: nat)
    requires i <= j <= |events|
  {
    forall k | i <= k < j && events[k].Other? :: Respectful(After(t, events[..k]), events[k].after)
  }

  ghost predicate AcceptedAt(t: Tables, events: seq<Event>, i: nat, d: nat) {
    && i < |events| && events[i].Authenticate?
    && ResolveStep(After(t, events[..i]), events[i].call).1 == Accepted(d)
  }

  lemma CallIsRespectful(t: Tables, c: Call)
    ensures Respectful(t, ResolveStep(t, c).0)
  {
  }

  lemma RespectIsTransitive(a: Tables, b: Tables, c: Tables)
    requires Respectful(a, b) && Respectful(b, c)
    ensures Respectful(a, c)
  {
  }

  /** Over any stretch of a run in which the other services keep it, inactive credentials stay
      inactive and origins stay put. */
  lemma {:induction false} RunIsRespectful(t: Tables, events: seq<Event>, i: nat, j: nat)
    requires i <= j <= |events| && OthersRespectful(t, events, i, j)
    ensures Respectful(After(t, events[..i]), After(t, events[..j]))
  {
    if i < j {
      var before := After(t, events[..j - 1]);
      RunIsRespectful(t, events, i, j - 1);
      if events[j - 1].Authenticate? {
        CallIsRespectful(before, events[j - 1].call);
      }
      assert events[..j][..j - 1] == events[..j - 1];
      RespectIsTransitive(After(t, events[..i]), before, After(t, events[..j]));
    }
  }

  /** Any two successful authentications of one device ran under the same public origin, if nobody
      else changed it between them. */
  lemma OneOriginPerDevice(t: Tables, events: seq<Event>, i: nat, j: nat, d: nat)
    requires i < j && AcceptedAt(t, events, i, d) && AcceptedAt(t, events, j, d)
    requires OthersRespectful(t, events, i + 1, j)
    ensures events[i].call.publicOrigin == events[j].call.publicOrigin
  {
    assert events[..i + 1][..i] == events[..i];
    RunIsRespectful(t, events, i + 1, j);
  }

  /** A call writes a device's origin only when it succeeds for that device, the origin was not set
      before, and what it writes is its own public origin; a failed call changes nothing but the
      status of an active credential that has expired or lost its device. */
  lemma OnlySuccessBindsOrigin(t: Tables, c: Call, d: nat)
    requires d in t.devices
    ensures d in ResolveStep(t, c).0.devices
    ensures ResolveStep(t, c).0.devices[d].serverOrigin != t.devices[d].serverOrigin <==>
      ResolveStep(t, c).1 == Accepted(d) && t.devices[d].serverOrigin.None?
    ensures ResolveStep(t, c).0.devices[d].serverOrigin != t.devices[d].serverOrigin ==>
      ResolveStep(t, c).0.devices[d].serverOrigin == Some(c.publicOrigin)
    ensures ResolveStep(t, c).1.Rejected? && ResolveStep(t, c).1.error !in {CredentialExpired, DeviceInactive} ==>
      ResolveStep(t, c).0 == t
    ensures forall h | h in t.credentials && ResolveStep(t, c).0.credentials[h].status != t.credentials[h].status ::
      h == c.tokenHash && t.credentials[h].status == Active && ResolveStep(t, c).1.Rejected?
  {
  }

  /** A credential that is no longer active never authenticates again. */
  lemma InactiveNeverAuthenticates(t: Tables, events: seq<Event>, i: nat, j: nat, d: nat)
    requires i <= j < |events| && events[j].Authenticate? && OthersRespectful(t, events, i, j)
    requires events[j].call.tokenHash in After(t, events[..i]).credentials
    requires After(t, events[..i]).credentials[events[j].call.tokenHash].status != Active
    ensures !AcceptedAt(t, events, j, d)
  {
    RunIsRespectful(t, events, i, j);
  }

  function Sample(origin: Option<string>, now: int): Tables {
    Tables(
      map["k" := Credential(Active, 0, 0, 1, now + 1, None, Some(now))],
      map[0 := Device(0, true, 1, origin, Some(now))], {0})
  }

  lemma SampleAccepts(origin: Option<string>, publicOrigin: string, now: int)
    requires origin in {None, Some(publicOrigin)}
    ensures ResolveStep(Sample(origin, now), Call("k", false, now, publicOrigin)) ==
      (Sample(Some(publicOrigin), now), Accepted(0))
  {
    var t, t' := Sample(origin, now), Sample(Some(publicOrigin), now);
    assert t.devices[0 := t'.devices[0]] == t'.devices;
  }

  /** Otherwise it can change: other code clears the origin, and the next call binds another one. */
  lemma ClearedOriginIsRebound(now: int)
    ensures var events := [Authenticate(Call("k", false, now, "a")), Other(Sample(None, now)),
                           Authenticate(Call("k", false, now, "b"))];
      AcceptedAt(Sample(None, now), events, 0, 0) && AcceptedAt(Sample(None, now), events, 2, 0)
  {
    var events := [Authenticate(Call("k", false, now, "a")), Other(Sample(None, now)),
                   Authenticate(Call("k", false, now, "b"))];
    SampleAccepts(None, "a", now);
    SampleAccepts(None, "b", now);
    assert events[..0] == [] && events[..2][..1] == events[..1];
    assert After(Sample(None, now), events[..2]) == Sample(None, now);
  }
}
