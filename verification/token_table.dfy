/** The revoked-token map of the document, as RevokeToken changes it (internal/database/token.go). */
module TokenTable {
  import opened Records

  /** Some entry already records this token string. */
  predicate HasTokenId(tokens: map<int, RevokedToken>, tokenID: string) {
    exists k | k in tokens :: tokens[k].id == tokenID
  }

  /** The tokens after RevokeToken's loop: every entry recording `tokenID` replaced by `record`. */
  function RevokeMatching(tokens: map<int, RevokedToken>, tokenID: string, record: RevokedToken): map<int, RevokedToken> {
    map k | k in tokens :: if tokens[k].id == tokenID then record else tokens[k]
  }

  /**
   * RevokeToken overwrites and never adds: the keys and the number of entries stay, entries
   * for `tokenID` become `record`, and all other entries are unchanged.
   */
  lemma RevokeMatchingShape(tokens: map<int, RevokedToken>, tokenID: string, record: RevokedToken)
    ensures RevokeMatching(tokens, tokenID, record).Keys == tokens.Keys
    ensures |RevokeMatching(tokens, tokenID, record)| == |tokens|
    ensures forall k | k in tokens && tokens[k].id == tokenID :: RevokeMatching(tokens, tokenID, record)[k] == record
    ensures forall k | k in tokens && tokens[k].id != tokenID :: RevokeMatching(tokens, tokenID, record)[k] == tokens[k]
  {
    assert RevokeMatching(tokens, tokenID, record).Keys == tokens.Keys;
  }

  /** Revoking a token string no entry records changes nothing. */
  lemma RevokeUnknownIsIdentity(tokens: map<int, RevokedToken>, tokenID: string, record: RevokedToken)
    requires !HasTokenId(tokens, tokenID)
    ensures RevokeMatching(tokens, tokenID, record) == tokens
  {
    assert forall k | k in tokens :: tokens[k].id != tokenID;
  }

  /** An empty revocation list stays empty whatever is revoked. */
  lemma EmptyListStaysEmpty(tokenID: string, record: RevokedToken)
    ensures RevokeMatching(map[], tokenID, record) == map[]
  {
  }
}
