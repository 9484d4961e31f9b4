/** Resolution of bearer tokens and the throttled record of device activity. */
module DeviceTokens {
  import opened Wrappers

  /** One minute, in microseconds. */
  const WRITE_INTERVAL := 60_000_000

  datatype TokenType = UserToken | DeviceToken

  datatype Token = Token(active: bool, tokenType: TokenType, expiresAt: int, deviceId: Option<nat>)

  datatype Device = Device(active: bool, lastSeenAt: Option<int>)

  datatype Error = AuthenticationRequired | AuthenticationInvalid | TokenRevoked | TokenExpired | DeviceRevoked

  datatype Outcome = Accepted(token: Token) | Rejected(error: Error)

  datatype Tables = Tables(tokens: map<string, Token>, devices: map<nat, Device>)

  datatype Call = Call(tokenHash: Option<string>, allowExpiredDevice: bool, touchDevice: bool, now: int)

  function Decide(t: Tables, c: Call): Outcome {
    if c.tokenHash.None? then Rejected(AuthenticationRequired)
    else if c.tokenHash.value !in t.tokens then Rejected(AuthenticationInvalid)
    else
      var token := t.tokens[c.tokenHash.value];
      if !token.active then Rejected(TokenRevoked)
      else if token.expiresAt <= c.now && !(c.allowExpiredDevice && token.tokenType.DeviceToken?) then
        Rejected(TokenExpired)
      else if token.deviceId.Some?
              && (token.deviceId.value !in t.devices || !t.devices[token.deviceId.value].active) then
        Rejected(DeviceRevoked)
      else Accepted(token)
  }

  /** The call records activity of device d. */
  predicate Writes(t: Tables, c: Call, d: nat) {
    && Decide(t, c).Accepted? && Decide(t, c).token.deviceId == Some(d) && d in t.devices
    && c.touchDevice
    && var seen := t.devices[d].lastSeenAt;
       seen.None? || seen.value <= c.now - WRITE_INTERVAL
  }

  class IdentityStore {
    var tokens: map<string, Token>
    var devices: map<nat, Device>

    ghost function View(): Tables
      reads this
    {
      Tables(tokens, devices)
    }

    /** _resolve_token: only an accepted call may write, only last_seen_at of its own device, and
        only when the recorded activity is at least the interval old. */
    method ResolveToken(c: Call) returns (outcome: Outcome)
      modifies this`devices
      ensures outcome == Decide(old(View()), c)
      ensures View() == Resolve(old(View()), c)
    {
      assert Resolve(View(), c).devices.Keys == devices.Keys;
      if c.tokenHash.None? {
        return Rejected(AuthenticationRequired);
      }
      if c.tokenHash.value !in tokens {
        return Rejected(AuthenticationInvalid);
      }
      var token := tokens[c.tokenHash.value];
      if !token.active {
        return Rejected(TokenRevoked);
      }
      if token.expiresAt <= c.now && !(c.allowExpiredDevice && token.tokenType.DeviceToken?) {
        return Rejected(TokenExpired);
      }
      if token.deviceId.Some? {
        var d := token.deviceId.value;
        if d !in devices || !devices[d].active {
          return Rejected(DeviceRevoked);
        }
        var seen := devices[d].lastSeenAt;
        if c.touchDevice && (seen.None? || seen.value <= c.now - WRITE_INTERVAL) {
          devices := devices[d := devices[d].(lastSeenAt := Some(c.now))];
        }
      }
      return Accepted(token);
    }
  }

  // ---------- Who is accepted

  /** The token is stored. */
  predicate IsStored(t: Tables, c: Call) {
    c.tokenHash.Some? && c.tokenHash.value in t.tokens
  }

  /** The stored token has run out, and the call does not let an expired device token pass. */
  predicate RunOut(t: Tables, c: Call)
    requires IsStored(t, c)
  {
    var token := t.tokens[c.tokenHash.value];
    token.expiresAt <= c.now && (token.tokenType == UserToken || !c.allowExpiredDevice)
  }

  /** The stored token names a device that is missing or not active. */
  predicate DeviceGone(t: Tables, c: Call)
    requires IsStored(t, c)
  {
    var token := t.tokens[c.tokenHash.value];
    token.deviceId != None && (token.deviceId.value in t.devices ==> !t.devices[token.deviceId.value].active)
  }

  /** A call is accepted, as its stored token, exactly when the token is stored and active, has not run
      out, and its device, if it names one, is active; otherwise the first failing check names the
      error. */
  lemma DecidedExactly(t: Tables, c: Call)
    ensures (exists token :: Decide(t, c) == Accepted(token)) <==>
      IsStored(t, c) && t.tokens[c.tokenHash.value].active && !RunOut(t, c) && !DeviceGone(t, c)
    ensures Decide(t, c).Accepted? ==> Decide(t, c).token == t.tokens[c.tokenHash.value]
    ensures Decide(t, c) == Rejected(AuthenticationRequired) <==> c.tokenHash == None
    ensures Decide(t, c) == Rejected(AuthenticationInvalid) <==> c.tokenHash != None && !IsStored(t, c)
    ensures Decide(t, c) == Rejected(TokenRevoked) <==> IsStored(t, c) && !t.tokens[c.tokenHash.value].active
    ensures Decide(t, c) == Rejected(TokenExpired) <==>
      IsStored(t, c) && t.tokens[c.tokenHash.value].active && RunOut(t, c)
    ensures Decide(t, c) == Rejected(DeviceRevoked) <==>
      IsStored(t, c) && t.tokens[c.tokenHash.value].active && !RunOut(t, c) && DeviceGone(t, c)
  {
    if Decide(t, c).Accepted? {
      assert Decide(t, c) == Accepted(Decide(t, c).token);
    }
  }

  /** What a call writes: the activity of the device that its accepted token names, if it may and the
      record is missing or at least 60 seconds old; nothing else. */
  lemma WrittenExactly(t: Tables, c: Call, d: nat)
    requires d in t.devices
    ensures var seen, t' := t.devices[d].lastSeenAt, Resolve(t, c);
      && t'.tokens == t.tokens && t'.devices.Keys == t.devices.Keys
      && t'.devices[d] ==
           (if && Decide(t, c).Accepted? && Decide(t, c).token.deviceId == Some(d) && c.touchDevice
               && (seen == None || c.now - seen.value >= 60 * 1_000_000)
            then Device(t.devices[d].active, Some(c.now)) else t.devices[d])
  {
  }

  // ---------- Runs

  function Resolve(t: Tables, c: Call): Tables {
    t.(devices := map d | d in t.devices ::
        if Writes(t, c, d) then t.devices[d].(lastSeenAt := Some(c.now)) else t.devices[d])
  }

  /** A call, or any change of the tables by other code. */
  datatype Event = Resolution(call: Call) | Other(at: int, after: Tables)

  function Reading(e: Event): int {
    match e
    case Resolution(c) => c.now
    case Other(at, _) => at
  }

  ghost function Apply(t: Tables, e: Event): Tables {
    match e
    case Resolution(c) => Resolve(t, c)
    case Other(_, after) => after
  }

  /** The device's recorded activity is neither forgotten nor moved back. */
  predicate NotMovedBack(t: Tables, t': Tables, d: nat) {
    d in t.devices && t.devices[d].lastSeenAt.Some? ==>
      && d in t'.devices && t'.devices[d].lastSeenAt.Some?
      && t.devices[d].lastSeenAt.value <= t'.devices[d].lastSeenAt.value
  }

  /** What the run asks of all other code that writes the device's activity. */
  ghost predicate OthersKeepActivity(t: Tables, events: seq<Event>, d: nat)
    decreases |events|
  {
    events == [] ||
    (&& (events[0].Other? ==> NotMovedBack(t, events[0].after, d))
     && OthersKeepActivity(Apply(t, events[0]), events[1..], d))
  }

  /** The tables after the first n events. */
  ghost function At(t: Tables, events: seq<Event>, n: nat): Tables
    requires n <= |events|
  {
    if n == 0 then t else Apply(At(t, events, n - 1), events[n - 1])
  }

  predicate IsRevoked(t: Tables, tokenHash: string) {
    tokenHash in t.tokens ==> !t.tokens[tokenHash].active
  }

  lemma {:induction false} RevokedStays(t: Tables, events: seq<Event>, tokenHash: string, n: nat)
    requires n <= |events| && IsRevoked(t, tokenHash)
    requires forall k | 0 <= k < n && events[k].Other? :: IsRevoked(events[k].after, tokenHash)
    ensures IsRevoked(At(t, events, n), tokenHash)
  {
    if n > 0 {
      RevokedStays(t, events, tokenHash, n - 1);
    }
  }

  /** A token seen revoked never authenticates again while other code does not reactivate it. */
  lemma RevokedNeverAuthenticates(t: Tables, events: seq<Event>, tokenHash: string, n: nat)
    requires n < |events| && tokenHash in t.tokens && !t.tokens[tokenHash].active
    requires forall k | 0 <= k < n && events[k].Other? :: IsRevoked(events[k].after, tokenHash)
    requires events[n].Resolution? && events[n].call.tokenHash == Some(tokenHash)
    ensures Decide(At(t, events, n), events[n].call) in {Rejected(TokenRevoked), Rejected(AuthenticationInvalid)}
  {
    RevokedStays(t, events, tokenHash, n);
  }

  /** The instants at which the run writes the activity of device d, in order. */
  ghost function WriteTimes(t: Tables, events: seq<Event>, d: nat): seq<int>
    decreases |events|
  {
    if events == [] then []
    else
      (if events[0].Resolution? && Writes(t, events[0].call, d) then [events[0].call.now] else []) +
      WriteTimes(Apply(t, events[0]), events[1..], d)
  }

  /** The run never writes the device's activity within the interval of what is recorded. */
  lemma {:induction false} WritesWaitForRecord(t: Tables, events: seq<Event>, d: nat, from: int)
    requires OthersKeepActivity(t, events, d)
    requires d in t.devices && t.devices[d].lastSeenAt.Some? && from <= t.devices[d].lastSeenAt.value
    ensures forall k | 0 <= k < |WriteTimes(t, events, d)| ::
      WriteTimes(t, events, d)[k] >= from + (k + 1) * WRITE_INTERVAL
    decreases |events|
  {
    if events != [] {
      var t' := Apply(t, events[0]);
      var rest := WriteTimes(t', events[1..], d);
      if events[0].Resolution? && Writes(t, events[0].call, d) {
        WritesWaitForRecord(t', events[1..], d, events[0].call.now);
        var all := [events[0].call.now] + rest;
        forall k | 0 <= k < |all| ensures all[k] >= from + (k + 1) * WRITE_INTERVAL {
          if k > 0 {
            assert all[k] == rest[k - 1];
          }
        }
      } else {
        WritesWaitForRecord(t', events[1..], d, from);
        assert [] + rest == rest;
      }
    }
  }

  /** While other code does not move the device's activity back, its writes are apart, whatever the
      clock of the calls does. */
  lemma {:induction false} WritesApart(t: Tables, events: seq<Event>, d: nat, i: nat, j: nat)
    requires OthersKeepActivity(t, events, d)
    requires i <= j < |WriteTimes(t, events, d)|
    ensures WriteTimes(t, events, d)[j] >= WriteTimes(t, events, d)[i] + (j - i) * WRITE_INTERVAL
    decreases |events|
  {
    var t' := Apply(t, events[0]);
    var rest := WriteTimes(t', events[1..], d);
    if events[0].Resolution? && Writes(t, events[0].call, d) {
      WritesWaitForRecord(t', events[1..], d, events[0].call.now);
      if i > 0 {
        WritesApart(t', events[1..], d, i - 1, j - 1);
      }
    } else {
      assert [] + rest == rest;
      WritesApart(t', events[1..], d, i, j);
    }
  }

  /** Activity writes are rate bounded: in any window of the given length a device's activity is
      written at most once per whole interval and once more. */
  lemma WritesAreRateBounded(t: Tables, events: seq<Event>, d: nat, i: nat, j: nat, window: nat)
    requires OthersKeepActivity(t, events, d)
    requires i <= j < |WriteTimes(t, events, d)|
    requires WriteTimes(t, events, d)[j] - WriteTimes(t, events, d)[i] <= window
    ensures j - i + 1 <= window / WRITE_INTERVAL + 1
  {
    WritesApart(t, events, d, i, j);
  }

  /** Every event happens at its own reading of a clock that does not go backwards from the given
      instant on, and other code that changes the device's recorded activity records its reading. */
  ghost predicate OwnReadings(t: Tables, events: seq<Event>, d: nat, from: int)
    decreases |events|
  {
    events == [] ||
    (&& from <= Reading(events[0])
     && (events[0].Other? && d in t.devices ==>
           && d in events[0].after.devices
           && events[0].after.devices[d].lastSeenAt in {t.devices[d].lastSeenAt, Some(events[0].at)})
     && OwnReadings(Apply(t, events[0]), events[1..], d, Reading(events[0])))
  }

  /** If every writer records its own reading of one clock that never goes backwards, nobody moves the
      device's activity back, so the bounds on its writes hold. */
  lemma {:induction false} OwnReadingsKeepActivity(t: Tables, events: seq<Event>, d: nat, from: int)
    requires d in t.devices && OwnReadings(t, events, d, from)
    requires t.devices[d].lastSeenAt.Some? ==> t.devices[d].lastSeenAt.value <= from
    ensures OthersKeepActivity(t, events, d)
    decreases |events|
  {
    if events != [] {
      OwnReadingsKeepActivity(Apply(t, events[0]), events[1..], d, Reading(events[0]));
    }
  }

  /** Otherwise the bound fails: other code moves the record back between two calls at one instant,
      and both of them write. */
  lemma MovedBackWritesTwice(now: int)
    ensures var d, token := 0, Token(true, DeviceToken, now + 1, Some(0));
      var t := Tables(map["k" := token], map[0 := Device(true, None)]);
      var back := Tables(map["k" := token], map[0 := Device(true, Some(now - WRITE_INTERVAL))]);
      var call := Resolution(Call(Some("k"), false, true, now));
      WriteTimes(t, [call, Other(now - WRITE_INTERVAL, back), call], d) == [now, now]
  {
    var token := Token(true, DeviceToken, now + 1, Some(0));
    var t := Tables(map["k" := token], map[0 := Device(true, None)]);
    var back := Tables(map["k" := token], map[0 := Device(true, Some(now - WRITE_INTERVAL))]);
    var c := Call(Some("k"), false, true, now);
    var call := Resolution(c);
    var last := Resolve(back, c);
    assert WriteTimes(last, [], 0) == [];
    assert WriteTimes(back, [call], 0) == [now] by {
      assert [call][1..] == [] && Writes(back, c, 0);
    }
    assert [Other(now - WRITE_INTERVAL, back), call][1..] == [call];
    assert [call, Other(now - WRITE_INTERVAL, back), call][1..] == [Other(now - WRITE_INTERVAL, back), call];
  }

  /** The read-only variant gives the same answer in every state and changes nothing. */
  lemma ReadOnlyObservesOnly(t: Tables, c: Call)
    ensures Decide(t, c.(touchDevice := false)) == Decide(t, c)
    ensures Resolve(t, c.(touchDevice := false)) == t
  {
    assert Resolve(t, c.(touchDevice := false)).devices == t.devices;
  }
}
