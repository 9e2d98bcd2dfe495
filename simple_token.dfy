/** The simple (non-JWT) auth token provider: a table from token to user
    name, and a keeper that holds each token's expiry time and drops the
    expired ones on every tick. Times are integer nanoseconds supplied by
    the caller. */
module SimpleToken {
  import opened Types
  import opened TokenFormat

  /** `simpleTokenTTLDefault`: 300 seconds. */
  const DefaultTTL: int := 300_000_000_000

  /** The tokens whose expiry lies strictly before `now`. */
  function Expired(tokens: map<string, int>, now: int): set<string>
  {
    set t | t in tokens && now > tokens[t]
  }

  /** The expiry table after a tick at `now`. */
  function Swept(tokens: map<string, int>, now: int): map<string, int>
  {
    tokens - Expired(tokens, now)
  }

  /** A tick keeps exactly the tokens expiring at or after `now`, with
      their expiry times unchanged. */
  lemma SweptKeepsLive(tokens: map<string, int>, now: int)
    ensures forall t :: t in Swept(tokens, now) <==> t in tokens && tokens[t] >= now
    ensures forall t :: t in Swept(tokens, now) ==> Swept(tokens, now)[t] == tokens[t]
  {
  }

  /** Two ticks remove what the later one alone removes. */
  lemma SweepTwice(tokens: map<string, int>, earlier: int, later: int)
    requires earlier <= later
    ensures Swept(Swept(tokens, earlier), later) == Swept(tokens, later)
  {
    var lhs := Swept(Swept(tokens, earlier), later);
    var rhs := Swept(tokens, later);
    assert lhs.Keys == rhs.Keys;
  }

  /** A token added or refreshed at `now` outlives every tick up to
      `now + ttl`. */
  lemma FreshTokenSurvives(tokens: map<string, int>, token: string, now: int, ttl: int, tick: int)
    requires tick <= now + ttl
    ensures token in Swept(tokens[token := now + ttl], tick)
  {
  }

  /** The tokens assigned to `username`. */
  function UserTokens(simpleTokens: map<string, string>, username: string): set<string>
  {
    set t | t in simpleTokens && simpleTokens[t] == username
  }

  /** Removing a user's tokens leaves none of theirs and keeps every other
      user's token with its owner. */
  lemma WithoutUser(simpleTokens: map<string, string>, username: string)
    ensures var rest := simpleTokens - UserTokens(simpleTokens, username);
      && (forall t :: t in rest ==> rest[t] != username)
      && (forall t :: t in simpleTokens && simpleTokens[t] != username ==> t in rest && rest[t] == simpleTokens[t])
  {
  }

  /** `simpleTokenTTLKeeper`: each live token's expiry time. */
  class TTLKeeper {
    var tokens: map<string, int>
    /** `simpleTokenTTL`: fixed when the keeper is created. */
    const ttl: int

    constructor (ttl: int)
      ensures tokens == map[] && this.ttl == ttl
    {
      tokens := map[];
      this.ttl := ttl;
    }

    /** `addSimpleToken`: the token now expires one TTL from `now`. */
    method AddSimpleToken(token: string, now: int)
      modifies this
      ensures tokens == old(tokens)[token := now + ttl]
    {
      tokens := tokens[token := now + ttl];
    }

    /** `resetSimpleToken`: pushes back the expiry of a token the keeper
        already holds; an unknown token is not added. */
    method ResetSimpleToken(token: string, now: int)
      modifies this
      ensures token in old(tokens) ==> tokens == old(tokens)[token := now + ttl]
      ensures token !in old(tokens) ==> tokens == old(tokens)
      ensures tokens.Keys == old(tokens).Keys
    {
      if token in tokens {
        tokens := tokens[token := now + ttl];
      }
    }

    /** `deleteSimpleToken`: forgets exactly that token. */
    method DeleteSimpleToken(token: string)
      modifies this
      ensures tokens == old(tokens) - {token}
    {
      tokens := tokens - {token};
    }
  }

  datatype AuthInfo = AuthInfo(username: string, revision: uint64)

  /** What `assignSimpleTokenToUser` does: nothing while disabled, a panic
      for a token already in use, otherwise the assignment. */
  datatype AssignOutcome = NotEnabled | AlreadyAssigned | Assigned

  /** `tokenSimple`. */
  class TokenSimple {
    var keeper: TTLKeeper?
    var simpleTokens: map<string, string>
    var ttl: int

    /** While disabled no token is held; while enabled the keeper times
        exactly the assigned tokens, with a positive TTL. */
    ghost predicate Valid()
      reads this, keeper
    {
      && (keeper == null ==> simpleTokens == map[])
      && (keeper != null ==> keeper.tokens.Keys == simpleTokens.Keys && keeper.ttl == ttl && ttl > 0)
    }

    /** `newTokenProviderSimple`: disabled, no tokens. */
    constructor (ttl: int)
      ensures Valid() && keeper == null && simpleTokens == map[] && this.ttl == ttl
    {
      keeper := null;
      simpleTokens := map[];
      this.ttl := ttl;
    }

    /** `enable`: when not yet enabled, substitutes the default TTL for a
        non-positive one and starts an empty keeper with it. */
    method Enable()
      requires Valid()
      modifies this
      ensures Valid() && keeper != null
      ensures old(keeper) != null ==> keeper == old(keeper) && ttl == old(ttl)
      ensures old(keeper) == null ==>
        && fresh(keeper) && keeper.tokens == map[]
        && ttl == (if old(ttl) <= 0 then DefaultTTL else old(ttl))
      ensures simpleTokens == old(simpleTokens)
    {
      if keeper != null {
        return;
      }
      if ttl <= 0 {
        ttl := DefaultTTL;
      }
      keeper := new TTLKeeper(ttl);
    }

    /** `disable`: drops the keeper and every token. */
    method Disable()
      modifies this
      ensures Valid() && keeper == null && simpleTokens == map[] && ttl == old(ttl)
    {
      keeper := null;
      simpleTokens := map[];
    }

    /** `assignSimpleTokenToUser`: records the token for the user and
        starts its expiry clock at `now`. */
    method AssignSimpleTokenToUser(username: string, token: string, now: int) returns (outcome: AssignOutcome)
      requires Valid()
      modifies this, keeper
      ensures Valid() && keeper == old(keeper) && ttl == old(ttl)
      ensures outcome == (if old(keeper) == null then NotEnabled
                          else if token in old(simpleTokens) then AlreadyAssigned
                          else Assigned)
      ensures outcome == Assigned ==>
        && simpleTokens == old(simpleTokens)[token := username]
        && keeper.tokens == old(keeper.tokens)[token := now + ttl]
      ensures outcome != Assigned ==>
        simpleTokens == old(simpleTokens) && (keeper != null ==> keeper.tokens == old(keeper.tokens))
    {
      if keeper == null {
        return NotEnabled;
      }
      if token in simpleTokens {
        return AlreadyAssigned;
      }
      simpleTokens := simpleTokens[token := username];
      keeper.AddSimpleToken(token, now);
      return Assigned;
    }

    /** `assign`: the token `<prefix>.<index>` for the user, where the
        prefix and the index are what the request context carries. */
    method Assign(username: string, prefix: string, index: uint64, now: int)
      returns (token: string, outcome: AssignOutcome)
      requires Valid()
      modifies this, keeper
      ensures Valid() && keeper == old(keeper) && ttl == old(ttl)
      ensures token == AssignedToken(prefix, index)
      ensures outcome == (if old(keeper) == null then NotEnabled
                          else if token in old(simpleTokens) then AlreadyAssigned
                          else Assigned)
      ensures outcome == Assigned ==>
        && simpleTokens == old(simpleTokens)[token := username]
        && keeper.tokens == old(keeper.tokens)[token := now + ttl]
      ensures outcome != Assigned ==>
        simpleTokens == old(simpleTokens) && (keeper != null ==> keeper.tokens == old(keeper.tokens))
    {
      token := prefix + "." + DecimalString(index);
      outcome := AssignSimpleTokenToUser(username, token, now);
    }

    /** `invalidateUser`: drops every token of the user from both tables. */
    method InvalidateUser(username: string)
      requires Valid()
      modifies this, keeper
      ensures Valid() && keeper == old(keeper) && ttl == old(ttl)
      ensures simpleTokens == old(simpleTokens) - UserTokens(old(simpleTokens), username)
      ensures keeper != null ==> keeper.tokens == old(keeper.tokens) - UserTokens(old(simpleTokens), username)
    {
      if keeper == null {
        return;
      }
      var mine := UserTokens(simpleTokens, username);
      var pending := simpleTokens.Keys;
      while pending != {}
        invariant pending <= old(simpleTokens).Keys
        invariant keeper == old(keeper) && keeper.ttl == ttl
        invariant simpleTokens == old(simpleTokens) - (mine - pending)
        invariant keeper.tokens == old(keeper.tokens) - (mine - pending)
        decreases pending
      {
        var token :| token in pending;
        if simpleTokens[token] == username {
          simpleTokens := simpleTokens - {token};
          keeper.DeleteSimpleToken(token);
        }
        pending := pending - {token};
      }
    }

    /** `info`: for a valid token, the user it belongs to (or an empty name
        and false when none) and a refreshed expiry; nothing for an invalid
        one. */
    method Info(token: string, revision: uint64, now: int, indexReached: uint64 -> bool)
      returns (info: Option<AuthInfo>, ok: bool)
      requires Valid()
      modifies keeper
      ensures Valid()
      ensures !IsValidSimpleToken(token, indexReached) ==> info == None && !ok
      ensures IsValidSimpleToken(token, indexReached) ==>
        && ok == (token in simpleTokens)
        && info == Some(AuthInfo(if ok then simpleTokens[token] else "", revision))
      ensures keeper != null ==>
        keeper.tokens == if ok then old(keeper.tokens)[token := now + ttl] else old(keeper.tokens)
    {
      if !IsValidSimpleToken(token, indexReached) {
        return None, false;
      }
      var username := "";
      ok := token in simpleTokens;
      if ok {
        username := simpleTokens[token];
      }
      if ok && keeper != null {
        keeper.ResetSimpleToken(token, now);
      }
      return Some(AuthInfo(username, revision)), ok;
    }

    /** One tick of the keeper's loop at time `now`: every token whose
        expiry lies strictly before `now` leaves both tables. */
    method Sweep(now: int)
      requires Valid()
      modifies this, keeper
      ensures Valid() && keeper == old(keeper) && ttl == old(ttl)
      ensures keeper == null ==> simpleTokens == old(simpleTokens)
      ensures keeper != null ==>
        && keeper.tokens == Swept(old(keeper.tokens), now)
        && simpleTokens == old(simpleTokens) - Expired(old(keeper.tokens), now)
    {
      if keeper == null {
        return;
      }
      var gone := Expired(keeper.tokens, now);
      var pending := keeper.tokens.Keys;
      while pending != {}
        invariant pending <= old(keeper.tokens).Keys
        invariant keeper == old(keeper) && keeper.ttl == ttl
        invariant keeper.tokens == old(keeper.tokens) - (gone - pending)
        invariant simpleTokens == old(simpleTokens) - (gone - pending)
        decreases pending
      {
        var token :| token in pending;
        if now > keeper.tokens[token] {
          // the keeper's delete callback, then the keeper's own entry
          if token in simpleTokens {
            simpleTokens := simpleTokens - {token};
          }
          keeper.tokens := keeper.tokens - {token};
        }
        pending := pending - {token};
      }
    }
  }
}
