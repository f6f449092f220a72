/** What each token operation answers and leaves behind, exactly. */
module TokenSteps {
  import opened Wrappers
  import opened Tokens
  import opened TokenTheorems

  /** The token is stored, of this kind, and neither revoked nor expired. */
  predicate Usable(hash: string -> string, t: Table, raw: string, kind: Kind, now: int) {
    var h := hash(raw);
    raw != "" && h in t && t[h].kind == kind && t[h].revokedAt == None && now <= t[h].expiresAt
  }

  /** `u` is `t` but for the revocation time of the row with this hash. */
  ghost predicate RevokesOne(t: Table, u: Table, h: string, now: int) {
    && u.Keys == t.Keys
    && forall k :: k in t ==> u[k] == if k == h then t[k].(revokedAt := Some(now)) else t[k]
  }

  /** `u` is `t` but for the revocation times of the account's rows that had none. */
  ghost predicate RevokesAccount(t: Table, u: Table, email: string, now: int) {
    && u.Keys == t.Keys
    && forall k :: k in t ==>
         u[k] == if t[k].email == email && t[k].revokedAt == None then t[k].(revokedAt := Some(now)) else t[k]
  }

  // ---------- Revocation ----------

  /** Revoking a token revokes its row, if there is one, and touches no other; an empty token is ignored. */
  lemma RevocationIsExact(hash: string -> string, t: Table, op: Op)
    requires op.Revoke?
    ensures var (u, r) := Step(hash, t, op);
            && r == (if op.raw == "" || op.writeOk then Done else Refused(WriteFailed))
            && (if op.raw != "" && op.writeOk then RevokesOne(t, u, hash(op.raw), op.now) else u == t)
  {
  }

  /** Revoking an account revokes exactly its rows that are not revoked yet. */
  lemma AccountRevocationIsExact(hash: string -> string, t: Table, op: Op)
    requires op.RevokeAll?
    ensures var (u, r) := Step(hash, t, op);
            && r == (if op.writeOk then Done else Refused(WriteFailed))
            && (if op.writeOk then RevokesAccount(t, u, op.email, op.now) else u == t)
  {
  }

  /** A revoked token is good for nothing in all later states. */
  lemma StaysRevoked(hash: string -> string, t: Table, ops: seq<Op>, i: nat, j: nat)
    requires i <= j < |ops| && (ops[j].Rotate? || ops[j].Validate?)
    requires var u, h := TableAfter(hash, t, ops[..i]), hash(ops[j].raw); h in u && Revoked(u[h])
    ensures !Answer(hash, t, ops, j).Issued? && !Answer(hash, t, ops, j).Valid?
  {
    RunGrows(hash, t, ops[..j], i);
    assert ops[..j][..i] == ops[..i];
    RevokedIsUseless(hash, TableAfter(hash, t, ops[..j]), ops[j]);
  }

  lemma NextState(hash: string -> string, t: Table, ops: seq<Op>, i: nat)
    requires i < |ops|
    ensures TableAfter(hash, t, ops[..i + 1]) == Step(hash, TableAfter(hash, t, ops[..i]), ops[i]).0
  {
    assert ops[..i + 1][..i] == ops[..i] && ops[..i + 1][i] == ops[i];
  }

  /** Once its revocation is answered with success, a stored token never validates and is never exchanged again. */
  lemma RevokedForGood(hash: string -> string, t: Table, ops: seq<Op>, i: nat, j: nat)
    requires i < j < |ops| && ops[i].Revoke? && ops[i].raw != "" && Answer(hash, t, ops, i) == Done
    requires hash(ops[i].raw) in TableAfter(hash, t, ops[..i])
    requires (ops[j].Rotate? || ops[j].Validate?) && hash(ops[j].raw) == hash(ops[i].raw)
    ensures !Answer(hash, t, ops, j).Issued? && !Answer(hash, t, ops, j).Valid?
  {
    RevocationIsExact(hash, TableAfter(hash, t, ops[..i]), ops[i]);
    NextState(hash, t, ops, i);
    StaysRevoked(hash, t, ops, i + 1, j);
  }

  /** The same for every token that was stored for an account when its revocation was answered with success. */
  lemma AccountRevokedForGood(hash: string -> string, t: Table, ops: seq<Op>, i: nat, j: nat)
    requires i < j < |ops| && ops[i].RevokeAll? && Answer(hash, t, ops, i) == Done
    requires ops[j].Rotate? || ops[j].Validate?
    requires var u, h := TableAfter(hash, t, ops[..i]), hash(ops[j].raw); h in u && u[h].email == ops[i].email
    ensures !Answer(hash, t, ops, j).Issued? && !Answer(hash, t, ops, j).Valid?
  {
    AccountRevocationIsExact(hash, TableAfter(hash, t, ops[..i]), ops[i]);
    NextState(hash, t, ops, i);
    StaysRevoked(hash, t, ops, i + 1, j);
  }

  // ---------- Validation ----------

  /** A token validates if and only if it is a usable access token; then its claims are those of its row, and its use is
      recorded, if that write goes through; otherwise nothing changes. */
  lemma ValidationIsExact(hash: string -> string, t: Table, op: Op)
    requires op.Validate?
    ensures var (u, r, h) := (Step(hash, t, op).0, Step(hash, t, op).1, hash(op.raw));
            && (r.Valid? <==> Usable(hash, t, op.raw, Access, op.now))
            && (r.Valid? ==> r.claims == Claims(t[h].userId, t[h].email, t[h].role))
            && u == (if r.Valid? && op.writeOk then t[h := t[h].(lastUsedAt := Some(op.now))] else t)
  {
  }

  // ---------- Exchange ----------

  /** A token is exchanged if and only if it is a usable refresh token and both new tokens can be stored. */
  lemma ExchangeIsExact(hash: string -> string, t: Table, op: Op)
    requires op.Rotate?
    ensures Step(hash, t, op).1.Issued? <==> Usable(hash, t, op.raw, Refresh, op.now) && Fresh(hash, t, op.at, op.rt)
  {
    var h := hash(op.raw);
    if h in t {
      var t1 := if op.writeOk then RevokedByHash(t, h, op.now) else t;
      assert t1.Keys == t.Keys;
      IssuesWhenFresh(hash, t1, t[h].userId, t[h].email, t[h].role, op.now, op.at, op.rt);
    }
  }

  /** A login issues a pair if and only if both tokens can be stored. */
  lemma LoginIsExact(hash: string -> string, t: Table, op: Op)
    requires op.Login?
    ensures Step(hash, t, op).1.Issued? <==> Fresh(hash, t, op.at, op.rt)
  {
    IssuesWhenFresh(hash, t, op.userId, op.email, op.role, op.now, op.at, op.rt);
  }

  /** A login touches no stored row, and an exchange none but that of its token; both add just the rows of the two new
      tokens, which expire after 15 minutes and after 30 days. */
  lemma ExchangeFrame(hash: string -> string, t: Table, op: Op)
    requires (op.Rotate? || op.Login?) && Step(hash, t, op).1.Issued?
    ensures var (u, pair) := (Step(hash, t, op).0, Step(hash, t, op).1.pair);
            && u.Keys == t.Keys + {hash(pair.access), hash(pair.refresh)}
            && pair == Pair(op.at.token.value, op.rt.token.value, 15 * 60)
            && u[hash(pair.access)].expiresAt == op.now + 15 * 60
            && u[hash(pair.refresh)].expiresAt == op.now + 30 * 24 * 60 * 60
            && forall k :: k in t && (op.Login? || k != hash(op.raw)) ==> u[k] == t[k]
  {
    PairRows(hash, t, op);
  }

  /** A revoked refresh token is answered as such, and takes all of its account's tokens along if that write goes through. */
  lemma ReplayIsExact(hash: string -> string, t: Table, op: Op)
    requires op.Rotate?
    ensures var (u, r, h) := (Step(hash, t, op).0, Step(hash, t, op).1, hash(op.raw));
            && (r == Refused(TokenRevoked) <==> op.raw != "" && h in t && t[h].kind == Refresh && Revoked(t[h]))
            && (r == Refused(TokenRevoked) ==> if op.writeOk then RevokesAccount(t, u, t[h].email, op.now) else u == t)
  {
  }

  /** The other refusals of validation and exchange, in the order in which they are tried; none of them changes anything. */
  lemma RefusalsAreExact(hash: string -> string, t: Table, op: Op)
    requires op.Rotate? || op.Validate?
    ensures var (u, r, h) := (Step(hash, t, op).0, Step(hash, t, op).1, hash(op.raw));
            var kind := if op.Rotate? then Refresh else Access;
            && (r == Refused(InvalidToken) <==> op.raw == "" || (h in t && t[h].kind != kind))
            && (r == Refused(TokenNotFound) <==> op.raw != "" && h !in t)
            && (op.Validate? ==> (r == Refused(TokenRevoked) <==>
                op.raw != "" && h in t && t[h].kind == kind && Revoked(t[h])))
            && (r == Refused(TokenExpired) <==>
                op.raw != "" && h in t && t[h].kind == kind && !Revoked(t[h]) && op.now > t[h].expiresAt)
            && (r == Refused(InvalidToken) || r == Refused(TokenNotFound) || r == Refused(TokenExpired) ==> u == t)
  {
  }
}
