/**
 API tokens: the table of token hashes and the manager that issues, validates, rotates and revokes them.
 Times are seconds.
 */
module Tokens {
  import opened Wrappers

  datatype Kind = Access | Refresh

  /** A row of `api_tokens`, keyed by its token hash. */
  datatype Row = Row(userId: Option<string>, email: string, role: string, kind: Kind, expiresAt: int,
                     revokedAt: Option<int>, lastUsedAt: Option<int>)

  type Table = map<string, Row>

  datatype TokenError = InvalidToken | TokenNotFound | TokenRevoked | TokenExpired | NoRandomness | StoreFailed | WriteFailed

  datatype Pair = Pair(access: string, refresh: string, expiresIn: int)

  datatype Claims = Claims(userId: Option<string>, email: string, role: string)

  /** One draw of a new raw token (None: the random source failed) and how its INSERT turns out. */
  datatype Draw = Draw(token: Option<string>, insertOk: bool)

  const ACCESS_TTL: int := 15 * 60
  const REFRESH_TTL: int := 30 * 24 * 60 * 60

  // ---------- The statements of the repository ----------

  predicate Revoked(r: Row) { r.revokedAt.Some? }

  function RevokedByHash(t: Table, h: string, now: int): Table {
    if h in t then t[h := t[h].(revokedAt := Some(now))] else t
  }

  function RevokedForEmail(t: Table, email: string, now: int): Table {
    map h | h in t :: if t[h].email == email && !Revoked(t[h]) then t[h].(revokedAt := Some(now)) else t[h]
  }

  function UsedByHash(t: Table, h: string, now: int): Table {
    if h in t then t[h := t[h].(lastUsedAt := Some(now))] else t
  }

  /** The token hash is UNIQUE, so a colliding insert fails. */
  class Repository {
    var table: Table

    method Store(h: string, row: Row, ok: bool) returns (stored: bool)
      modifies this
      ensures stored <==> ok && h !in old(table)
      ensures table == if stored then old(table)[h := row] else old(table)
    {
      stored := ok && h !in table;
      if stored {
        table := table[h := row];
      }
    }

    method GetByHash(h: string) returns (row: Option<Row>)
      ensures row == if h in table then Some(table[h]) else None
    {
      row := if h in table then Some(table[h]) else None;
    }

    method RevokeByHash(h: string, now: int, ok: bool)
      modifies this
      ensures table == if ok then RevokedByHash(old(table), h, now) else old(table)
    {
      if ok && h in table {
        table := table[h := table[h].(revokedAt := Some(now))];
      }
    }

    method RevokeAllForEmail(email: string, now: int, ok: bool)
      modifies this
      ensures table == if ok then RevokedForEmail(old(table), email, now) else old(table)
    {
      if ok {
        table := map h | h in table :: if table[h].email == email && table[h].revokedAt.None?
                                       then table[h].(revokedAt := Some(now)) else table[h];
      }
    }

    method UpdateLastUsed(h: string, now: int, ok: bool)
      modifies this
      ensures table == if ok then UsedByHash(old(table), h, now) else old(table)
    {
      if ok && h in table {
        table := table[h := table[h].(lastUsedAt := Some(now))];
      }
    }
  }

  // ---------- The operations as one step each ----------

  datatype Op =
    | Login(userId: Option<string>, email: string, role: string, now: int, at: Draw, rt: Draw)
    | Validate(raw: string, now: int, writeOk: bool)
    | Rotate(raw: string, now: int, writeOk: bool, at: Draw, rt: Draw)
    | Revoke(raw: string, now: int, writeOk: bool)
    | RevokeAll(email: string, now: int, writeOk: bool)

  datatype Outcome = Issued(pair: Pair) | Valid(claims: Claims) | Done | Refused(error: TokenError)

  function NewRow(userId: Option<string>, email: string, role: string, kind: Kind, now: int): Row {
    Row(userId, email, role, kind, now + if kind == Access then ACCESS_TTL else REFRESH_TTL, None, None)
  }

  function RoleOr(role: string): string { if role == "" then "user" else role }

  function Issue(hash: string -> string, t: Table, userId: Option<string>, email: string, role: string,
                 now: int, at: Draw, rt: Draw): (Table, Outcome)
  {
    if at.token.None? then (t, Refused(NoRandomness))
    else if !at.insertOk || hash(at.token.value) in t then (t, Refused(StoreFailed))
    else
      var t1 := t[hash(at.token.value) := NewRow(userId, email, RoleOr(role), Access, now)];
      if rt.token.None? then (t1, Refused(NoRandomness))
      else if !rt.insertOk || hash(rt.token.value) in t1 then (t1, Refused(StoreFailed))
      else (t1[hash(rt.token.value) := NewRow(userId, email, RoleOr(role), Refresh, now)],
            Issued(Pair(at.token.value, rt.token.value, ACCESS_TTL)))
  }

  function Step(hash: string -> string, t: Table, op: Op): (Table, Outcome) {
    match op
    case Login(userId, email, role, now, at, rt) => Issue(hash, t, userId, email, role, now, at, rt)
    case Validate(raw, now, writeOk) =>
      var h := hash(raw);
      if raw == "" then (t, Refused(InvalidToken))
      else if h !in t then (t, Refused(TokenNotFound))
      else if t[h].kind != Access then (t, Refused(InvalidToken))
      else if Revoked(t[h]) then (t, Refused(TokenRevoked))
      else if now > t[h].expiresAt then (t, Refused(TokenExpired))
      else (if writeOk then UsedByHash(t, h, now) else t, Valid(Claims(t[h].userId, t[h].email, t[h].role)))
    case Rotate(raw, now, writeOk, at, rt) =>
      var h := hash(raw);
      if raw == "" then (t, Refused(InvalidToken))
      else if h !in t then (t, Refused(TokenNotFound))
      else if t[h].kind != Refresh then (t, Refused(InvalidToken))
      else if Revoked(t[h]) then
        (if writeOk then RevokedForEmail(t, t[h].email, now) else t, Refused(TokenRevoked))
      else if now > t[h].expiresAt then (t, Refused(TokenExpired))
      else
        var t1 := if writeOk then RevokedByHash(t, h, now) else t;
        Issue(hash, t1, t[h].userId, t[h].email, t[h].role, now, at, rt)
    case Revoke(raw, now, writeOk) =>
      if raw == "" then (t, Done)
      else if writeOk then (RevokedByHash(t, hash(raw), now), Done) else (t, Refused(WriteFailed))
    case RevokeAll(email, now, writeOk) =>
      if writeOk then (RevokedForEmail(t, email, now), Done) else (t, Refused(WriteFailed))
  }

  class Manager {
    const repo: Repository
    const hash: string -> string

    constructor (repo: Repository, hash: string -> string)
      ensures this.repo == repo && this.hash == hash
    {
      this.repo := repo;
      this.hash := hash;
    }

    method IssueTokenPair(userId: Option<string>, email: string, role: string, now: int, at: Draw, rt: Draw)
      returns (r: Outcome)
      modifies repo
      ensures (repo.table, r) == Issue(hash, old(repo.table), userId, email, role, now, at, rt)
    {
      var actual := role;
      if role == "" {
        actual := "user";
      }
      if at.token.None? {
        return Refused(NoRandomness);
      }
      var stored := repo.Store(hash(at.token.value), Row(userId, email, actual, Access, now + ACCESS_TTL, None, None), at.insertOk);
      if !stored {
        return Refused(StoreFailed);
      }
      if rt.token.None? {
        return Refused(NoRandomness);
      }
      stored := repo.Store(hash(rt.token.value), Row(userId, email, actual, Refresh, now + REFRESH_TTL, None, None), rt.insertOk);
      if !stored {
        return Refused(StoreFailed);
      }
      r := Issued(Pair(at.token.value, rt.token.value, ACCESS_TTL));
    }

    method ValidateAccessToken(raw: string, now: int, writeOk: bool) returns (r: Outcome)
      modifies repo
      ensures (repo.table, r) == Step(hash, old(repo.table), Validate(raw, now, writeOk))
    {
      if raw == "" {
        return Refused(InvalidToken);
      }
      var tokenHash := hash(raw);
      var tok := repo.GetByHash(tokenHash);
      if tok.None? {
        return Refused(TokenNotFound);
      }
      if tok.value.kind != Access {
        return Refused(InvalidToken);
      }
      if tok.value.revokedAt.Some? {
        return Refused(TokenRevoked);
      }
      if now > tok.value.expiresAt {
        return Refused(TokenExpired);
      }
      repo.UpdateLastUsed(tokenHash, now, writeOk);
      r := Valid(Claims(tok.value.userId, tok.value.email, tok.value.role));
    }

    /** RefreshTokens. The errors of both revocations are discarded by the original: `writeOk` says how they went. */
    method RefreshTokens(raw: string, now: int, writeOk: bool, at: Draw, rt: Draw) returns (r: Outcome)
      modifies repo
      ensures (repo.table, r) == Step(hash, old(repo.table), Rotate(raw, now, writeOk, at, rt))
    {
      if raw == "" {
        return Refused(InvalidToken);
      }
      var tokenHash := hash(raw);
      var tok := repo.GetByHash(tokenHash);
      if tok.None? {
        return Refused(TokenNotFound);
      }
      if tok.value.kind != Refresh {
        return Refused(InvalidToken);
      }
      if tok.value.revokedAt.Some? {
        repo.RevokeAllForEmail(tok.value.email, now, writeOk);
        return Refused(TokenRevoked);
      }
      if now > tok.value.expiresAt {
        return Refused(TokenExpired);
      }
      repo.RevokeByHash(tokenHash, now, writeOk);
      r := IssueTokenPair(tok.value.userId, tok.value.email, tok.value.role, now, at, rt);
    }

    method RevokeToken(raw: string, now: int, writeOk: bool) returns (r: Outcome)
      modifies repo
      ensures (repo.table, r) == Step(hash, old(repo.table), Revoke(raw, now, writeOk))
    {
      if raw == "" {
        return Done;
      }
      repo.RevokeByHash(hash(raw), now, writeOk);
      r := if writeOk then Done else Refused(WriteFailed);
    }

    method RevokeAllForEmail(email: string, now: int, writeOk: bool) returns (r: Outcome)
      modifies repo
      ensures (repo.table, r) == Step(hash, old(repo.table), RevokeAll(email, now, writeOk))
    {
      repo.RevokeAllForEmail(email, now, writeOk);
      r := if writeOk then Done else Refused(WriteFailed);
    }
  }
}
